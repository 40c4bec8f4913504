# A Dafny model of the OpenRFS image, network, asset and integrity tools

OpenRFS keeps its complete algorithms in Python under `tools/`: a FAT32 formatter with an independent
inspector, a TCP peer with a packet auditor, an image pipeline, checksummed superblocks and a trust table, and an
acceptor for audio captures. This project states what those tools are for and proves it, for all inputs, all runs
and all volumes.

Code that computes a value is a function here; code that changes buffers, objects or variables is a class or a
method with loops, proved against the functions the lemmas are about.

- `FatChain`, `FatDirectory`, `FatTree`, `FatInspector` (with `FatAcceptance`), `FatImages`: the FAT32 inspector. A
  chain walk, the directory scanner and the recursive walk with its ownership map are shown to decide a declarative
  question: is there one finite directory tree that accounts for every allocated cluster? `FatFields` states which
  boot sectors, FSInfo sectors, slots and names it takes, as numbers at byte offsets.
- `FatGeometry`, `FatFormat`, `FatNames`, `FatLayout`, `FatPlan`, `FatStore`, `FatAllocate`, `FatExact`,
  `FatVolume`: the formatter's writes and allocation loops, down to every byte of a 64 MiB image, backups included,
  and the theorem that the inspector accepts a finished image and its report leads back to every file.
  `FatPopulate`, `FatTreeStage` and `FatSystem` are the three builders on top of them, `FatLimits` where their
  checks and the inspector disagree. `Sorting` is byte-string order and stable sorting.
- `TcpReassembly`, `TcpPeer`, `TcpRuns`, `TcpReceive`, `TcpShape`, `TcpFlows`, `TcpFixture`: the auditor's
  reassembly, the windowed sender with 32-bit counters, runs of any number of connections against any TLS engine,
  what such runs take in and what they put on the wire, their segments among other traffic, and the peer as mutable
  objects.
- `InternetChecksum`, `Packets`, `PacketFields`, `Capture` (with `Pcap`), `CaptureAll`: checksums, packet builders,
  the frame parser, its counters and the PCAP file, which connect the sender to the auditor through real bytes.
- `TlsHandshake`, `TlsRecords`, `TlsFragments`: the auditor's TLS 1.2 parser, exactly which streams it has nothing
  to say against, and exactly when the cutting of a handshake into records matters.
- `PngFilter`, `FloodFill` (with `PixelGraph` and `LogoCrop`), `LogoScale`, `RunLength`: the image pipeline.
- `Crc32c`, `CrcDivision`, `CrcAnswers`, `Ext4`, `Jbd2`, `Ext4Recovery`: CRC32C as a shift register and as
  polynomial division, the superblocks it protects and the recovery marker. `TrustTable` (with `TrustSpec`): the
  trust table.
- `SdlCapture`: the one-pass audio acceptor.
- `Bytes` and `Arithmetic` hold codecs, slice assignment and facts about products.

Seven claims a reader of the source might make are false as they stand. Each has a lemma at a failing input and the
exact condition under which it holds:

- The populate functions do not succeed for every file count their own checks admit: the root directory needs an end
  marker, so fifteen entries pass the checks and are refused by the inspection (`FatLimits.FifteenFilesRefused`,
  `FatLimits.FifteenNamespacesRefused`); they succeed exactly up to fourteen (`FatPopulate.PopulateFiles`,
  `FatTreeStage.PopulateTree`).
- The peer's capture is not always accepted: an engine that writes after the FIN leaves a gap
  (`TcpRuns.LateRunRefused`). It is accepted exactly when none does (`TcpRuns.RunAudited`).
- The peer does not always acknowledge what it has taken in: a FIN without data is believed whatever its number
  (`TcpReceive.StrayFinAcknowledged`). It does exactly when each such FIN is at the expected number or repeats the
  last one (`TcpReceive.RunReceives`).
- The handshake summary can depend on how a transcript is cut into records (`TlsFragments.FragmentationMatters`). It
  does not exactly when the transcript is at most 131072 bytes long, or gives the same tally when read up to any end
  within one record past that (`TlsFragments.FragmentationIff`); one byte past the limit is such a case.
- `fit_within` says it never enlarges; a side of zero next to one that is too long becomes one
  (`LogoScale.EmptySideEnlarged`). Exactly otherwise it keeps its word (`LogoScale.NeverEnlargesIff`).
- A built trust table is not always accepted by the auditor: `bytes.fromhex` skips white space, so a 64-character
  text with spaces gives a short key (`TrustTable.SpacedKeyRefused`). It is accepted exactly without such a text
  (`TrustTable.BuiltAcceptedIff`).
- An unknown PNG filter is refused only where rows have bytes (`PngFilter.EmptyRowAccepted`,
  `PngFilter.AcceptedIff`).

## Model

| member | source | states |
|---|---|---|
| FatChain.ComputeChain | tools/fat32_image.py:677-700 | The loop with its list and its visited set returns the walk that the lemmas below characterise, errors included. |
| FatChain.PathUnique | tools/fat32_image.py:677-700 | Two end-of-chain paths from one cluster are the same path. |
| FatChain.PathDistinct | tools/fat32_image.py:677-700 | A path that reaches end-of-chain never repeats a cluster. |
| FatChain.WalkChainExact | tools/fat32_image.py:677-700 | The walk returns a chain exactly when it is the end-of-chain path from the first cluster, and that path has no duplicates. |
| FatChain.LengthBoundUnreachable | tools/fat32_image.py:689-690 | On every FAT the length bound can never be the check that refuses a chain. |
| FatChain.WalkErrors | tools/fat32_image.py:684-700 | When distinct clusters lead nowhere, the error is the one their last FAT entry calls for: bad, free or reserved, already seen, or past the volume. |
| FatChain.Pigeonhole | tools/fat32_image.py:689-690 | Distinct in-range clusters are at most as many as the volume has. |
| FatChain.ChainAllocated | tools/fat32_image.py:684-700 | Every cluster of a walked chain is in range and has a nonzero FAT entry. |
| FatDirectory.ScanSound | tools/fat32_image.py:734-769 | A successful slot scan stopped at the end marker or the end of the slots, and found exactly the listing of the well-formed slots before it. |
| FatDirectory.ScanComplete | tools/fat32_image.py:734-769 | Well-formed slots up to the end marker are always scanned to exactly that listing. |
| FatDirectory.ScanFindsContent | tools/fat32_image.py:727-769 | A directory scan that succeeds walked a prefix of the chain ending in the end marker, read its listing, and claimed exactly those clusters. |
| FatDirectory.ContentFoundByScan | tools/fat32_image.py:727-769 | Conversely, such a prefix that nobody else owns is found by the scan. |
| FatDirectory.ContentUnique | tools/fat32_image.py:727-769 | A chain has at most one walked prefix and one listing. |
| FatTree.ClaimFileExact | tools/fat32_image.py:796-800 | Claiming a file's chain succeeds exactly when no cluster has another owner, and then assigns exactly those clusters. |
| FatTree.ParseSound | tools/fat32_image.py:713-802 | A successful recursive walk describes a finite directory tree, reports that tree's records in order, and owns exactly its clusters under the right paths. |
| FatTree.ParseComplete | tools/fat32_image.py:713-802 | Every describable tree whose clusters can be assigned one path each is walked successfully, whatever is already owned consistently. |
| FatTree.FolderUnique | tools/fat32_image.py:713-802 | A volume describes at most one tree from a given cluster. |
| FatTree.NotInsideItself | tools/fat32_image.py:721-723 | No directory of a described tree starts where one of its ancestors does, so the stack check never refuses a tree. |
| FatTree.WalkDecidesTree | tools/fat32_image.py:713-802 | The walk from the root succeeds exactly when an ownership assignment of the tree exists; it then returns the tree's records and owns exactly its clusters. |
| FatTree.NoTreeNoWalk | tools/fat32_image.py:713-802 | Without a finite tree (a cycle, a missing end marker, a bad entry) the walk always refuses. |
| FatInspector.DirectoryInspector.ReadEntries | tools/fat32_image.py:727-769 | The nested slot loops, updating the ownership map in place, return and leave what the scan specifies. |
| FatInspector.DirectoryInspector.ClaimChain | tools/fat32_image.py:796-800 | The ownership loop leaves exactly the specified map or refuses a cross-link. |
| FatInspector.DirectoryInspector.Parse | tools/fat32_image.py:713-802 | The recursive method over mutable owners and stack returns what the walk specifies and restores the stack. |
| FatInspector.DirectoryInspector.VisitAll | tools/fat32_image.py:771-802 | The record loop, with its case-folded name set, refines the specified visit of all entries. |
| FatInspector.DirectoryInspector.Visit | tools/fat32_image.py:773-800 | One record: skipped, recursed into or claimed exactly as specified. |
| FatInspector.ComputeInspection | tools/fat32_image.py:805-829 | The whole inspection of a decoded volume equals its specification. |
| FatAcceptance.InspectDecides | tools/fat32_image.py:805-829 | The inspector accepts a volume exactly when one directory tree accounts for all of it; that tree is unique and is the one reported, with its clusters as the allocated ones. |
| FatAcceptance.AccountedIsAccepted | tools/fat32_image.py:805-829 | A tree that accounts for a volume gives this exact report: its records, free count and used count. |
| FatAcceptance.RecordOwned | tools/fat32_image.py:796-800 | Every record owns, under its own path, each cluster it occupies. |
| FatAcceptance.HeldByRecord | tools/fat32_image.py:713-802 | Every cluster of a tree below its root belongs to one of its records. |
| FatAcceptance.RecordsDisjoint | tools/fat32_image.py:796-800 | Whenever the inspector accepts, two records that share a cluster have the same path. |
| FatAcceptance.RootDisjoint | tools/fat32_image.py:727-731 | Nor does a record with another path share a cluster with the root directory. |
| FatAcceptance.AllocatedIsOwned | tools/fat32_image.py:815-824 | The clusters with a nonzero FAT entry are exactly those of the root directory and of the records. |
| FatAcceptance.FreePlusOwned | tools/fat32_image.py:815-829 | Free clusters and owned clusters add up to the cluster count. |
| FatImages.ImageDecides | tools/fat32_image.py:805-829 | The inspector accepts some bytes exactly when boot sector, FSInfo, FAT copies and reserved entries are in order and a directory tree accounts for the volume; the tree is the only one, and the report is its records, free and used counts. |
| FatImages.ImageRecordsDisjoint | tools/fat32_image.py:796-800 | In accepted bytes two records that share a cluster have the same path. |
| FatImages.ImageAllocatedIsOwned | tools/fat32_image.py:815-829 | In accepted bytes a cluster's FAT entry is nonzero exactly when the root directory or a record owns it, and the reported free clusters are the rest. |
| FatFields.BootIff | tools/fat32_image.py:583-638 | A boot sector is accepted exactly when every field, as a number at its offset, fits: signature, sector and cluster size, reserved sectors, two FATs, empty legacy fields, 65525 to 0x0FFFFFEE clusters with FAT room for them, root cluster, FSInfo and backup sectors apart and inside the reserved area, the image length, a printable label. |
| FatFields.BootRead | tools/fat32_image.py:583-638 | The geometry of an accepted boot sector is read from those offsets, its label up to the trailing spaces. |
| FatFields.InfoIff | tools/fat32_image.py:641-653 | FSInfo is accepted exactly with its three signatures and possible or unknown hints at their offsets, and yields those hints. |
| FatFields.HeadersIff | tools/fat32_image.py:805-812 | The header checks of the inspection pass exactly when boot sector and FSInfo fit, the two FATs are the same bytes and their first two entries are the media mark and an end mark. |
| FatFields.VolumeRead | tools/fat32_image.py:656-666 | FAT entry c is the low 28 bits at the first FAT plus 4c, and cluster c the sectors the geometry gives it. |
| FatFields.LongNameIff | tools/fat32_image.py:744-753 | A long-name record is let through exactly with an order of 1 to 20, zero type and cluster, and thirteen code units that are padding or printable ASCII. |
| FatFields.EntryRead | tools/fat32_image.py:756-765 | An ordinary slot gives name, attributes, cluster and size from these bytes, is a directory by bit 4, and is a dot entry exactly when its name is one or two dots and spaces. |
| FatFields.NameIff | tools/fat32_image.py:703-710 | A short name reads as its trimmed base, then a dot and its trimmed extension unless empty, and is refused exactly when not ASCII or blank. |
| FatFields.CaseAlike | tools/fat32_image.py:771-777 | Two names count as the same exactly when they differ at most in the case of letters. |
| FatFields.PathExtends | tools/fat32_image.py:762 | A record's path is its parent's without trailing slashes, a slash and the name; under the root the bare name. |
| FatFields.EncodeIff | tools/fat32_image.py:421-434 | Exactly the names of one to eight and up to three capital letters, digits, underscores and hyphens are encoded, each as base and extension filled with spaces. |
| FatGeometry.CheckedMulExact | tools/fat32_image.py:73-76 | The overflow test refuses exactly the products above 64 bits. |
| FatGeometry.ComputeFatSectors | tools/fat32_image.py:79-91 | Returns the least FAT size that covers every data cluster, and refuses exactly when none does. |
| FatGeometry.ClusterInside | tools/fat32_image.py:120-127 | For any geometry that passes parsing, each data cluster is a run of sectors between the second FAT and the end of the volume. |
| FatGeometry.ClusterTranslates | tools/fat32_image.py:120-133 | So no checked step of the cluster translation can refuse, and it yields that run. |
| FatGeometry.ClustersApart | tools/fat32_image.py:120-133 | Two clusters never share a byte. |
| FatGeometry.FatEntryInside | tools/fat32_image.py:656-666 | Every FAT entry read lies inside its own FAT copy, ahead of the data region and inside the image. |
| FatGeometry.FatValueTotal | tools/fat32_image.py:656-666 | Reading an in-range FAT entry never fails and gives the low 28 bits stored there. |
| FatGeometry.ParseGeometry | tools/fat32_image.py:583-638 | An accepted boot sector describes a geometry that fits the image. |
| FatGeometry.Inspect | tools/fat32_image.py:805-829 | The executable inspection of raw bytes (geometry, FSInfo, FAT comparison, walk) equals its specification. |
| FatFormat.FatSectorsSolved | tools/fat32_image.py:94-98 | The module's constants are the solution of the geometry for 131072 sectors. |
| FatFormat.BootParses | tools/fat32_image.py:152-182 | The geometry parser reads back, from a formatted boot sector, the geometry it was formatted with. |
| FatFormat.BootIs | tools/fat32_image.py:152-182 | Every byte of a formatted boot sector, as literal values at literal offsets. |
| FatFormat.FsInfoSector | tools/fat32_image.py:185-193 | The FSInfo sector carries its three signatures, the free count and the hint where the parser reads them. |
| FatFormat.FsInfoIs | tools/fat32_image.py:185-193 | Every byte of an FSInfo sector. |
| FatFormat.ReservedIs | tools/fat32_image.py:292-301 | Every byte of the reserved sectors: sector six repeats the boot sector, sector seven FSInfo, the rest is zero. |
| FatFormat.EntryRoundTrip | tools/fat32_image.py:215-225 | A directory entry reads back as it was written: name, attributes, split cluster number, size. |
| FatFormat.SetFatDecodes | tools/fat32_image.py:202-207 | Writing a FAT entry changes that entry of the decoded volume, in both copies, and nothing else. |
| FatFormat.WriteDecodes | tools/fat32_image.py:209-213 | Writing into a cluster changes that part of that cluster of the decoded volume and nothing else. |
| FatNames.NameRoundTrip | tools/fat32_image.py:421-434 | The inspector reads an encoded name back as the text it came from, up to one trailing dot. |
| FatNames.NamesInjective | tools/fat32_image.py:421-434 | Two names encode alike exactly when their canonical texts are equal, so distinct names give distinct paths. |
| FatNames.ShortNameFacts | tools/fat32_image.py:703-710 | An encoded name is never taken for an end marker, a deleted slot or a dot entry, and decodes. |
| FatLayout.ReadBack | tools/fat32_image.py:677-700 | Following the chain of a stored content returns it padded with zeros to whole clusters. |
| FatLayout.LaidOutUsed | tools/fat32_image.py:463-480 | The allocated clusters of a laid-out volume are the root and an unbroken run up to the end. |
| FatPlan.PackedContent | tools/fat32_image.py:735-769 | A one-cluster directory with room for an end marker is read back in full. |
| FatPlan.FullDirectoryRefused | tools/fat32_image.py:768-769 | A one-cluster directory with sixteen entries is refused for want of an end marker. |
| FatPlan.PlanAccepted | tools/fat32_image.py:805-829 | A volume laid out to a plan is accepted with exactly the plan's tree, free count and used count. |
| FatPlan.PlanRefused | tools/fat32_image.py:768-769 | Unless its root directory is full: then it is refused for want of an end marker. |
| FatStore.LayContent | tools/fat32_image.py:467-475 | The copy-and-link loop appends one content to the volume on disk and touches nothing stored before. |
| FatStore.AddRootEntry | tools/fat32_image.py:476-479 | Adds the next root entry to the image and keeps everything else. |
| FatStore.AddDirectory | tools/fat32_image.py:537-540 | Allocates the next cluster as an empty directory and keeps everything else. |
| FatStore.AddEntry | tools/fat32_image.py:548-569 | Appends an entry to a directory cluster and keeps everything else. |
| FatStore.PutFsInfo | tools/fat32_image.py:185-193 | Rewrites sectors one and seven with the new FSInfo, byte for byte, and disturbs nothing else. |
| FatExact.DiskUnique | tools/fat32_image.py:292-386 | The slots and contents on disk, together with the reserved sectors, determine every byte of the image, the unused ones included. |
| FatExact.EntryLayout | tools/fat32_image.py:215-225 | Every byte of a directory entry: name, attributes, split cluster number, size, the rest zero. |
| FatExact.DiskStarts | tools/fat32_image.py:297-301 | The first FAT entries are F8 FF FF 0F, FF FF FF 0F, FF FF FF 0F, and the root directory begins with the volume label and attribute 08. |
| FatAllocate.PlanEnds | tools/fat32_image.py:303-379 | The next free cluster after a plan is the root plus the blocks of its root files, one cluster a directory and the blocks of their files. |
| FatAllocate.LayRootFiles | tools/fat32_image.py:323-340 | The loop over root files leaves exactly the planned root entries and contents on disk, and the right next cluster. |
| FatAllocate.LayMember | tools/fat32_image.py:361-377 | One file of a directory: its blocks and its entry are added, everything else stays. |
| FatAllocate.FillDirectory | tools/fat32_image.py:348-377 | The dot entries and all files of a directory are added, in order, and the next cluster is the planned one. |
| FatVolume.BuildFresh | tools/fat32_image.py:292-386 | The in-place formatter of a volume without files leaves exactly the specified image; sectors six and seven equal sectors zero and one, every reserved byte and the first FAT and root bytes are the literal ones. |
| FatVolume.FreshLayout | tools/fat32_image.py:292-386 | A fresh image in bytes: reserved sectors with both backups, 129021 free clusters, next cluster 3, FAT start and label. |
| FatVolume.FinishedReserved | tools/fat32_image.py:378-386 | Every finished image has these reserved sectors, with its own free count and next cluster in FSInfo and its backup. |
| FatVolume.FinishedStarts | tools/fat32_image.py:297-301 | And these first bytes of FAT and root directory. |
| FatVolume.FinishedHints | tools/fat32_image.py:378-386 | FSInfo of a finished image tells the truth: free count plus allocated clusters is the cluster count, and the next hint is the first cluster with a zero FAT entry, or unknown when there is none. |
| FatVolume.FinishedUnique | tools/fat32_image.py:292-386 | A plan has one finished image, byte for byte. |
| FatVolume.DotsListed | tools/fat32_image.py:348-357 | In the report of every finished plan each directory lists itself, by the cluster its own entry names, as `.`, and cluster 2 as `..`. |
| FatVolume.CompleteMarked | tools/fat32_image.py:366-377 | Every record of a finished image has its builder's file attribute, or 10 as a directory. |
| FatVolume.FreshFinished | tools/fat32_image.py:239-386 | A fresh volume is accepted as empty with one used cluster. |
| FatVolume.FinishedInspected | tools/fat32_image.py:805-829 | The inspector's verdict on the bytes of any finished image: the plan's report, or a missing end marker exactly when the root is full. |
| FatVolume.FinishedReadBack | tools/fat32_image.py:677-700 | In every finished image the chain of each planned content returns it plus zero padding. |
| FatVolume.FileAvailable | tools/fat32_image.py:805-829 | In every finished image with room for an end marker, each root file of the plan is reported under its name with its size, and the chain from the recorded cluster holds its bytes, then zeros. |
| FatVolume.MemberAvailable | tools/fat32_image.py:805-829 | So is each file of a directory, under its two-part path. |
| FatVolume.ReportedIsPlanned | tools/fat32_image.py:805-829 | And every file the report lists is one of the plan's, with its path, size and bytes. |
| FatVolume.VerifyData | tools/fat32_image.py:890-899 | The one image let through is the deterministic fresh data volume. |
| FatPopulate.PrepareFiles | tools/fat32_image.py:437-462 | The checks pass exactly for one to fifteen uniquely named, nonempty, fitting files, and yield their encoded names and cluster total. |
| FatPopulate.FilesHeld | tools/fat32_image.py:437-491 | In the finished image of some files each is reported under its canonical name, size and bytes, and no other file is reported. |
| FatPopulate.PopulateFiles | tools/fat32_image.py:437-491 | Succeeds exactly on a fresh data volume and at most fourteen well-formed files; the result is accepted with an exact free count, the report lists exactly those files with attribute 20, each with a chain that reads back, and the reserved sectors, backups included, are the literal ones. |
| FatVolume.Finish | tools/fat32_image.py:481-488 | Writing FSInfo last gives a finished image: exact free count and next free cluster, in sector one and its backup, with the boot sector and its backup as formatted. |
| FatTreeStage.PrepareTree | tools/fat32_image.py:499-531 | The checks pass exactly for unique one-level paths within the directory and cluster limits, and yield the directories and files in name order. |
| FatTreeStage.SumGrouped | tools/fat32_image.py:509-531 | Grouping by directory neither loses nor repeats a file's clusters. |
| FatTreeStage.OpenDirectories | tools/fat32_image.py:535-540 | The first loop gives each directory an empty cluster of its own. |
| FatTreeStage.LayTree | tools/fat32_image.py:533-570 | The two allocation loops leave exactly the planned directories and files on disk. |
| FatTreeStage.MemberPlanned | tools/fat32_image.py:509-531 | Every staged file has a place in the grouped and sorted tree, under its own directory. |
| FatTreeStage.PlannedMember | tools/fat32_image.py:509-531 | And every place in the tree holds a staged file. |
| FatTreeStage.TreeHeld | tools/fat32_image.py:499-580 | In the finished image of some paths each file is reported under its canonical path, size and bytes, and no other file is reported. |
| FatTreeStage.PopulateTree | tools/fat32_image.py:499-580 | Succeeds exactly on a fresh data volume and well-formed paths in at most fourteen namespaces of at most thirteen files; the result is accepted with an exact free count, the report lists exactly those files with attribute 20, each with a chain that reads back, and the reserved sectors, backups included, are the literal ones. |
| FatLimits.FifteenFilesRefused | tools/fat32_image.py:437-491 | Fifteen one-letter files pass every check, and their finished image is refused for want of an end marker. |
| FatLimits.FifteenNamespacesRefused | tools/fat32_image.py:499-580 | So do fifteen one-file namespaces. |
| FatSystem.Gather | tools/fat32_image.py:257-285 | The loop over extra files fails only on files that do not fit together, and otherwise gathers root files, directories and their files. |
| FatSystem.PrepareSystem | tools/fat32_image.py:251-290 | The checks of the system role pass exactly for no or three measured profiles and extra files whose names, directories, root entries and clusters all fit together. |
| FatSystem.OpenNamed | tools/fat32_image.py:340-347 | Each directory gets an empty cluster and its root entry. |
| FatSystem.LaySystem | tools/fat32_image.py:303-377 | The allocation loops of the system role leave exactly the planned volume on disk. |
| FatSystem.SystemHeld | tools/fat32_image.py:303-386 | In the finished system volume each profile and extra file is reported under its path, size and bytes, and no other file is reported. |
| FatSystem.BuildSystem | tools/fat32_image.py:239-386 | Building the system volume succeeds exactly when those checks pass; the inspector always accepts the result, with an exact free count and exactly the given files with attribute 21, each with a chain that reads back, and the reserved sectors, backups included, are the literal ones. |
| TcpReassembly.Auditor.Accept | tools/network_packet_audit.py:250-278 | One segment through the mutable auditor changes streams, live flows and errors exactly as specified. |
| TcpReassembly.PlaceHolds | tools/network_packet_audit.py:266-278 | A payload is placed exactly when it starts without a gap and agrees with the bytes it overlaps; placing only appends, and the payload is then the slice at its offset. |
| TcpReassembly.SynOpens | tools/network_packet_audit.py:252-278 | A SYN opens a stream that starts with its own payload, numbered from the byte after the SYN, whatever came before. |
| TcpReassembly.RunExtends | tools/network_packet_audit.py:250-278 | Over any segments, streams and errors only grow at the end. |
| TcpReassembly.AcceptedStays | tools/network_packet_audit.py:250-278 | Whatever follows, an accepted segment stays the slice of its stream at its offset. |
| TcpReassembly.TrueStream | tools/network_packet_audit.py:250-278 | Segments cut from one stream of at most 2^32 bytes, in any order and overlap, never contradict and reassemble to exactly the contiguous part in reach. |
| TcpPeer.DrainRefines | tools/https_network_fixture.py:148-157 | Sending in 1200-byte chunks with modular counters is sending everything the window takes at once with plain counters. |
| TcpPeer.AcknowledgeRefines | tools/https_network_fixture.py:159-164 | The modular acknowledgement test accepts exactly the positions between acknowledged and sent. |
| TcpPeer.StepRefines | tools/https_network_fixture.py:246-268 | Every step keeps the relation to the unbounded sender: acknowledged never moves back or past sent, and in-flight stays within the send window, plus one after FIN. |
| TcpPeer.StepConserves | tools/https_network_fixture.py:233-268 | No step of the modular sender loses, repeats or reorders a byte: what it sends and leaves queued is what was queued and what the engine produced. |
| TcpPeer.StepWithinWindow | tools/https_network_fixture.py:148-157 | When a step of the modular sender sends data, the 32-bit distance from acknowledged to sent, less a FIN just sent, is at most the smaller of the send window and the window just advertised. |
| TcpPeer.StepFillsWindow | tools/https_network_fixture.py:148-157 | A step that drains and leaves output queued has filled that window. |
| TcpPeer.LateAudited | tools/https_network_fixture.py:166-170 | Data drained after the FIN is always reported by the auditor. |
| TcpPeer.StepAudited | tools/network_packet_audit.py:250-278 | Auditing what one client segment caused appends exactly the newly drained bytes, or reports an error exactly when some left after the FIN. |
| TcpRuns.RunRefines | tools/https_network_fixture.py:233-268 | In every run, for every connection, the 32-bit counters are the unbounded ones modulo 2^32 and obey their bounds; from any moment to a later one no acknowledged or sent position moves back and no sent byte changes. |
| TcpRuns.RunWithinWindow | tools/https_network_fixture.py:233-268 | At every event of every run, what an open connection adds to the capture carries data only within the smaller of 4800 bytes and the advertised window, fills it if output stays queued, and loses no byte. |
| TcpRuns.RunAudited | tools/network_packet_audit.py:250-278 | For every run sending under 2^32 bytes a connection, the auditor reports no error exactly when no connection sent data after its FIN, and then each stream is exactly what that connection drained, in order. |
| TcpRuns.QuietRunAccepted | tools/https_network_fixture.py:166-207 | An engine that stays silent after its FIN always passes. |
| TcpRuns.LateRunRefused | tools/https_network_fixture.py:166-207 | A three-segment run whose engine writes after its FIN is refused. |
| TcpReceive.StepReceives | tools/https_network_fixture.py:246-268 | A step moves the peer as a receiver with unbounded counters: data is taken, once, exactly at the expected number, and everything sent acknowledges what that receiver then expects. |
| TcpReceive.RunReceives | tools/https_network_fixture.py:233-268 | In every run and for every port: every segment sent acknowledges exactly the client's first number plus the bytes taken in and the FINs in sequence, if and only if each FIN without data is at the expected number or repeats the last; then the TLS engine has been handed exactly the bytes taken in, in order. |
| TcpReceive.StrayFinAcknowledged | tools/https_network_fixture.py:263-265 | A FIN at number 5000, when 1001 is expected, is acknowledged with 5001. |
| TcpReceive.ConsecutiveAccepted | tools/https_network_fixture.py:255-262 | A client that sends its stream in consecutive pieces has each piece taken in once: the receiver then holds exactly what was sent, however long the stream and whatever other connections do. |
| TcpReceive.SlicesAccepted | tools/https_network_fixture.py:255-262 | Whatever pieces of one stream of under 2^32 bytes a client sends, repeated or out of order, what is taken in is a prefix of the stream, extended exactly by the pieces that start where it ends. |
| TcpReceive.CarriedStands | tools/https_network_fixture.py:255-262 | As long as the client sends no FIN or new SYN, peer and receiver agree after every event and every segment sent acknowledges exactly what was taken in. |
| TcpReceive.StreamDelivered | tools/https_network_fixture.py:255-262 | Whatever came before its SYN and whatever other connections do, a client that sends consecutive pieces has exactly those bytes handed to the TLS engine, in order. |
| TcpShape.StepShapes | tools/https_network_fixture.py:135-170 | Every step sends only well-formed segments: from 10.0.2.20 port 443 to the guest, pushed data of 1 to 1200 bytes, all but the last of 1200, or an empty ACK or FIN; numbers continue without gap or overlap, and a FIN is sent last and exactly by the step that closes. |
| TcpShape.RunShapes | tools/https_network_fixture.py:123-157 | In every run each event adds to the capture: for a SYN exactly the SYN-ACK numbered 0x63000000 plus the port, for an open connection such segments from where it stands, and nothing otherwise. |
| TcpFlows.Interleaved | tools/network_packet_audit.py:250-278 | Auditing interleaved flows is auditing each side by itself: the same streams in the same order, and together as many errors. |
| TcpFlows.RunAmongOthers | tools/network_packet_audit.py:250-278 | Among any other traffic, no error is reported exactly when no connection sent data after its FIN and the other flows are clean, and the peer's streams are then the drained bytes, connection by connection. |
| TcpFixture.HttpsFixture.SendHttps | tools/https_network_fixture.py:135-146 | Appends the segment to the capture and advances the peer's counter by payload and SYN or FIN. |
| TcpFixture.HttpsFixture.DrainTls | tools/https_network_fixture.py:148-157 | The draining loop over a mutable peer sends exactly the specified segments. |
| TcpFixture.HttpsFixture.AcknowledgeServer | tools/https_network_fixture.py:159-164 | Updates only the acknowledged counter, as specified. |
| TcpFixture.HttpsFixture.FinishHttps | tools/https_network_fixture.py:166-170 | Drains and sends the FIN once, exactly when specified. |
| TcpFixture.HttpsFixture.AdvanceTls | tools/https_network_fixture.py:172-207 | Takes the engine's output and finishes as specified, or leaves before finishing when the engine raises an exception. |
| TcpFixture.HttpsFixture.OpenPeer | tools/https_network_fixture.py:245-249 | A SYN replaces the port's peer by a fresh object and sends its SYN-ACK. |
| TcpFixture.HttpsFixture.HandleTcp | tools/https_network_fixture.py:244-268 | One client segment moves the objects, including replaced and fresh peers, exactly as the value-level fixture whose sending half refines `TcpRuns.RunRefines` and whose receiving half is fixed by `TcpReceive.RunReceives`. |
| TcpFixture.HttpsFixture.HandleSegment | tools/https_network_fixture.py:233-268 | Raw bytes that fail the header checks change nothing; others act as the segment they encode. |
| TcpFixture.Serve | tools/https_network_fixture.py:233-268 | Any sequence of raw arrivals leaves the objects in the state of a run that meets the field bounds of the run theorems. |
| TcpFixture.BuiltClientParses | tools/https_network_fixture.py:235-245 | A segment from the packet builder, with any options, reaches the handler with its fields intact, and is ignored exactly when it is for another address or port. |
| InternetChecksum.Fold | tools/network_fixture.py:44-45 | Folding terminates in 16 bits, keeps the residue modulo 65535, and gives zero only for zero. |
| InternetChecksum.Checksum | tools/network_fixture.py:40-46 | The padding, summing and folding loops compute the specified checksum. |
| InternetChecksum.VerifiesIff | tools/network_packet_audit.py:40-46 | Data verifies to zero exactly when its words sum to a nonzero multiple of 65535. |
| InternetChecksum.FilledVerifies | tools/network_fixture.py:57-61 | Filling a zero word with the checksum makes any data verify, whatever its length parity. |
| InternetChecksum.OnesVerify | tools/network_fixture.py:71-72 | So does 0xFFFF where the checksum is zero. |
| InternetChecksum.WrongNeverVerifies | tools/network_fixture.py:58-60 | A checksum off by less than 65535 never verifies. |
| Packets.BuiltHeaderChecks | tools/network_fixture.py:53-62 | A built IPv4 header verifies exactly when it was not built with a bad checksum. |
| Packets.BuiltIpSeen | tools/network_packet_audit.py:207-222 | The auditor sees in every built IPv4 packet what its transport payload is, and refuses the bad-checksum variant. |
| Packets.BuiltUdpSeen | tools/network_fixture.py:65-73 | Every built datagram, of either parity and also when the checksum comes out zero, is seen with its ports; a stored zero means none was computed. |
| Packets.BuiltTcpSeen | tools/network_fixture.py:76-88 | Every built segment with any options is seen as exactly that segment: ports, numbers, flags, payload. |
| Packets.SentIsSeen | tools/network_fixture.py:215-221 | A segment sent by the fixture comes out of the frame parser unchanged. |
| PacketFields.FrameIs | tools/network_fixture.py:215-221 | Every byte of a sent frame at its offset: addresses, lengths, flags, numbers, window 8192, payload; the two checksums make their words sum to a multiple of 65535. |
| PacketFields.OptionsLayout | tools/network_fixture.py:76-88 | TCP options stand behind the fixed header, filled with no-operation bytes to whole words that the offset byte counts. |
| PacketFields.BadHeaderIs | tools/network_fixture.py:53-62 | The bad-checksum variant differs in the lowest bit of the checksum's high byte and nowhere else. |
| PacketFields.SeenIs | tools/network_packet_audit.py:186-245 | Each class of frame is seen exactly when its bytes hold it: TCP, UDP, ICMP, other IPv4, ARP, ignored, and malformed after being counted as IPv4. |
| PacketFields.PortsSeen | tools/network_packet_audit.py:222-246 | The ports, numbers, flags and payload seen are those at their offsets behind the IPv4 header. |
| Pcap.PcapWriter.Write | tools/network_fixture.py:147-152 | Appends one numbered record. |
| PacketFields.FileLayout | tools/network_fixture.py:143-151 | The 24 header bytes of a capture file, and the time stamp and lengths of each record. |
| Pcap.Frames | tools/network_packet_audit.py:18-37 | The reading loop returns the specified frames or error. |
| Pcap.PcapRoundTrip | tools/network_packet_audit.py:18-37 | A written capture reads back frame by frame, or is refused exactly when a frame exceeds 1514 bytes. |
| Capture.AuditCapture | tools/network_packet_audit.py:177-280 | The frame loop counts and reassembles as specified, or reports why the file is unreadable. |
| PacketFields.CountsExact | tools/network_packet_audit.py:177-252 | Over every capture each counter (sender, ARP, IPv4, ICMP, UDP, DHCP, DNS, TCP, HTTPS, malformed) is the number of frames whose bytes are of its kind. |
| Capture.RunSendable | tools/https_network_fixture.py:135-146 | In every run, everything the peer sends fits the packet builders. |
| Capture.SentFramesAudited | tools/network_packet_audit.py:186-278 | Sent frames are counted once each, none is malformed, and the audit is that of the segments. |
| Capture.RunCaptured | tools/network_packet_audit.py:177-280 | From client segments through packets, PCAP bytes and the frame parser: every run's capture reads back, has no malformed frame, and reassembles to the drained bytes exactly when no data left after a FIN. |
| CaptureAll.FramesReassembled | tools/network_packet_audit.py:177-280 | Over any frames, reassembly is that of the TCP segments they show. |
| CaptureAll.RunInCapture | tools/network_packet_audit.py:177-280 | In every capture whose peer frames are those of a run, whatever other frames are sent or received between them: the file reads back, reassembly is free of errors exactly when no data left after a FIN and the other flows are clean, and then the peer's streams are exactly the drained bytes, in order. |
| TlsHandshake.TranscriptRoundTrip | tools/network_packet_audit.py:49-62 | A transcript of whole messages is read message by message, with nothing lost or added. |
| TlsHandshake.ChainRoundTrip | tools/network_packet_audit.py:92-105 | An encoded certificate chain is read back certificate by certificate. |
| TlsHandshake.ChainExact | tools/network_packet_audit.py:92-105 | Chain bytes read without error are the encoding of the certificates read. |
| TlsHandshake.ServerHelloRecorded | tools/network_packet_audit.py:67-82 | The version and suite of a ServerHello are recorded whatever its session identifier, with an error exactly for an unsupported pair. |
| TlsHandshake.ChainRecorded | tools/network_packet_audit.py:83-108 | The digests recorded are those of the chain's certificates, with an error exactly outside one to four certificates or 65536 bytes. |
| TlsHandshake.TranscriptRecorded | tools/network_packet_audit.py:49-108 | For every transcript of whole messages: one ClientHello counted for each message of kind 1, one version and suite, at their offsets, for each readable message of kind 2, and one list of digests, one a certificate in order, for each readable message of kind 11. |
| TlsHandshake.TranscriptCleanIff | tools/network_packet_audit.py:49-108 | No error is reported exactly for transcripts made of clean messages. |
| TlsHandshake.ComputeChain | tools/network_packet_audit.py:92-105 | The certificate loop returns the specified certificates and error. |
| TlsHandshake.ComputeHandshakes | tools/network_packet_audit.py:49-108 | The message loop adds the specified tally. |
| TlsRecords.ComputeStream | tools/network_packet_audit.py:131-173 | The record loop over one stream yields the specified summary. |
| TlsRecords.ComputeStreams | tools/network_packet_audit.py:111-174 | And so over all streams. |
| TlsRecords.ConsumesExactly | tools/network_packet_audit.py:138-150 | A concatenation of valid records is consumed record by record, with no framing error. |
| TlsRecords.EncodeInjective | tools/network_packet_audit.py:138-150 | The bytes determine the records. |
| TlsRecords.CountsExact | tools/network_packet_audit.py:151-171 | Unless the transcript overflows, each record is counted once by kind and sender, and the largest size is the largest. |
| TlsFragments.ScanKeeps | tools/network_packet_audit.py:151-171 | The scan of any records holds the transcript up to the end of the first plaintext handshake record that passes the limit. |
| TlsFragments.KeptEndIs | tools/network_packet_audit.py:160-164 | That end is the whole transcript when it fits, and otherwise the end of the one record that starts within the limit and passes it. |
| TlsFragments.StreamAdds | tools/network_packet_audit.py:131-173 | Auditing a stream of valid records adds exactly the handshake tally of that kept part. |
| TlsFragments.EndReached | tools/network_packet_audit.py:160-164 | Every end from one byte to one record past the limit is reached by some cutting of the same bytes. |
| TlsFragments.FragmentationIff | tools/network_packet_audit.py:160-173 | All cuttings of a transcript add the same tally exactly when it fits the limit or reads alike up to any end within one record past it. |
| TlsFragments.OneBytePastAgrees | tools/network_packet_audit.py:160-164 | One byte past the limit the cutting never matters. |
| TlsFragments.FragmentationMatters | tools/network_packet_audit.py:160-164 | The same 131076 zero bytes cut in two ways leave different errors. |
| TlsRecords.StreamCleanIff | tools/network_packet_audit.py:131-173 | A stream adds no error exactly when it is valid records in order, with a fitting transcript of clean messages. |
| TlsRecords.StreamsCleanIff | tools/network_packet_audit.py:111-174 | No errors at all exactly when every stream is clean. |
| PngFilter.PaethAgree | tools/compare-rsd-proof-screenshot.py:29-33 | The min-index and the nested Paeth predictors agree everywhere and return one of their arguments; which one, `PngFilter.PaethNearest` says. |
| PngFilter.PaethNearest | tools/compare-rsd-proof-screenshot.py:29-33 | The predictor returns the one of left, up and upper left whose squared distance to left + up - upper left is least, the first in that order on a tie, and nothing else. |
| PngFilter.UnfilteredByte | tools/make-wallpaper-asset.py:37-53 | Each byte of an unfiltered row is the stored byte plus the prediction of its filter from the row's own bytes and the row above, modulo 256. |
| PngFilter.UnfilterInverts | tools/make-wallpaper-asset.py:37-53 | Unfiltering inverts filtering for every row, filter and channel count. |
| PngFilter.FilterInverts | tools/make-wallpaper-asset.py:37-53 | Filtering inverts unfiltering. |
| PngFilter.UnfilterInPlace | tools/make-wallpaper-asset.py:37-53 | The in-place byte loop leaves the row that the filtered row stands for. |
| PngFilter.UnfilterLogoInPlace | tools/make-logo-asset.py:54-69 | So does the loop with the nested predictor; an unknown filter leaves the row as it is. |
| PngFilter.Unfilter | tools/make-wallpaper-asset.py:26-57 | The row loop yields the specified image or error. |
| PngFilter.ReadScreenshot | tools/compare-rsd-proof-screenshot.py:61-87 | Adds an exact length check, after which no row can be truncated. |
| PngFilter.UnfilterLogo | tools/make-logo-asset.py:46-72 | The unchecked reader, with the index errors and the short last row it can produce. |
| PngFilter.ImageRoundTrip | tools/make-wallpaper-asset.py:26-57 | For every image, channel count and per-row choice of the five filters, unfiltering the filtered image gives it back. |
| PngFilter.AcceptedIff | tools/make-wallpaper-asset.py:34-52 | An image is accepted exactly when all rows are there and, unless rows are empty, all filters are known. |
| PngFilter.EmptyRowAccepted | tools/make-wallpaper-asset.py:34-52 | A row of no pixels with filter 9, which does not exist, is accepted. |
| PngFilter.AcceptedIsFiltered | tools/make-wallpaper-asset.py:26-57 | Accepted bytes are the filtering of what came out, so nothing else unfilters to it. |
| PngFilter.ReadersAgree | tools/make-logo-asset.py:46-72 | Whatever the checking readers accept, the logo tool reads to the same pixels. |
| PixelGraph.NeighboursExact | tools/make-logo-asset.py:111-119 | The neighbours looked at are exactly the adjacent cells of the image. |
| FloodFill.PushNeighbours | tools/make-logo-asset.py:120-123 | Clears and pushes exactly the neighbours still occupied, once each. |
| FloodFill.Flood | tools/make-logo-asset.py:100-124 | The stack loop terminates, clears exactly the seed's 4-connected component, and returns its true size and tight bounding box. |
| FloodFill.LargestMark | tools/make-logo-asset.py:96-129 | Every component is found exactly once, from its least cell, and the result describes the first of the largest; there is none exactly when nothing is occupied. |
| LogoCrop.CropToPrimaryMark | tools/make-logo-asset.py:86-143 | Fails exactly when every alpha is below 8; otherwise returns the padded, clipped box of the first largest component and the image's bytes in it. |
| LogoCrop.PadIs | tools/make-logo-asset.py:130-136 | The box grows by eight pixels on each side, as far as the image goes. |
| LogoCrop.WindowPixel | tools/make-logo-asset.py:137-142 | Every pixel of the crop is the image's pixel at the same place. |
| LogoCrop.MarkInside | tools/make-logo-asset.py:130-136 | The crop contains all of the first largest component. |
| LogoScale.NeverEnlargesIff | tools/make-logo-asset.py:75-83 | Neither side grows exactly when the image fits already or has no empty side. |
| LogoScale.EmptySideEnlarged | tools/make-logo-asset.py:75-83 | An image ten wide and zero high, fitted to four, comes out four by one. |
| LogoScale.FitFits | tools/make-logo-asset.py:75-83 | The chosen size fits the maximum and no side of a nonempty image vanishes; how the sides relate, `LogoScale.AspectKept` says. |
| LogoScale.AspectKept | tools/make-logo-asset.py:75-83 | A size that has to shrink gets the maximum for its longer side, and for the other the whole number nearest to the same proportion, halves up, or one where that is zero. |
| LogoScale.ExactlyOneBox | tools/make-logo-asset.py:153-157 | When shrinking, each source row or column lies in exactly one box. |
| LogoScale.BoxInBounds | tools/make-logo-asset.py:153-157 | No box is empty or leaves the source, shrinking or not. |
| LogoScale.SumBox | tools/make-logo-asset.py:158-168 | The two inner loops sum the box. |
| LogoScale.Downscale | tools/make-logo-asset.py:146-173 | Returns the source when the size is unchanged, nothing for a size without pixels, and otherwise the image of box averages; it fails exactly when a pixel is asked of an image that has none. |
| LogoScale.ScaledPixel | tools/make-logo-asset.py:169-172 | Each output pixel, four valid bytes, is the average of its own box. |
| LogoScale.EvenAverages | tools/make-logo-asset.py:158-172 | A box whose pixels are all alike averages to that pixel. |
| LogoScale.AverageIs | tools/make-logo-asset.py:169-172 | Averages are rounded down: colour times alpha, and alpha times pixels, fall short of their sums by less than one step. |
| LogoScale.Conserved | tools/make-logo-asset.py:151-168 | Over all output pixels the summed premultiplied colour, alpha and pixel counts are those of the source. |
| LogoScale.FittedConserves | tools/make-logo-asset.py:210-211 | In particular for the sizes the tool chooses. |
| RunLength.RunsExpand | tools/make-logo-asset.py:176-194 | Expanding the runs gives the pixels back, and every run has 1 to 255 pixels. |
| RunLength.Minimal | tools/make-logo-asset.py:176-194 | No encoding with runs of at most 255 uses fewer runs. |
| RunLength.Encode | tools/make-logo-asset.py:176-194 | The loop's body decodes to those runs, five bytes each. |
| Crc32c.Crc32cRaw | tools/ext4_image.py:132-139 | The nested loops compute the specified register; what it is, `CrcDivision.CrcIsRemainder` says. |
| CrcDivision.CrcIsRemainder | tools/ext4_image.py:132-139 | For every message and seed the register is the only polynomial of degree below 32 congruent, over GF(2), to the message with the seed folded into its first bits times x^32, modulo the Castagnoli polynomial with exponents 32, 28, 27, 26, 25, 23, 22, 20, 19, 18, 14, 13, 11, 10, 9, 8, 6 and 0. |
| CrcDivision.RemainderUnique | tools/ext4_image.py:132-139 | Two polynomials of degree below 32 congruent modulo it are equal. |
| CrcDivision.PolynomialIs | tools/ext4_image.py:132-139 | The register constant holds exactly the exponents of the Castagnoli polynomial, reflected. |
| CrcAnswers.CheckValue | tools/ext4_image.py:132-139 | "123456789" from all ones gives the complement of 0xE3069283. |
| CrcAnswers.OneByteValue | tools/ext4_image.py:132-139 | The byte 1 from a zero register gives 0xF26B8303. |
| Crc32c.SeedInjective | tools/ext4_image.py:132-139 | For a fixed message the result determines the seed. |
| Crc32c.CrcOfFour | tools/ext4_image.py:132-139 | Feeding four bytes is thirty-two steps of the register combined with their word. |
| Crc32c.BurstDetected | tools/ext4_image.py:132-139 | In a message of any length, a change confined to at most four consecutive bytes always changes the result. |
| Crc32c.SingleByteDetected | tools/ext4_image.py:132-139 | Equal-length messages that differ in one byte have different results. |
| Crc32c.ResidueIff | tools/ext4_image.py:224-230 | A message followed by four bytes leaves zero exactly when they are its checksum. |
| Ext4.MasksExact | tools/ext4_image.py:172-192 | The feature checks pass exactly for compat 0x2C, read-only 0x46B and incompat 0x20C2 or 0x20C6. |
| Ext4.ChecksumIsResidue | tools/ext4_image.py:224-230 | The checksum test passes exactly when the 1024 bytes leave a zero remainder. |
| Ext4.AcceptedIff | tools/ext4_image.py:157-230 | A superblock is accepted exactly when magic, block size, the three masks, inode size, alignment, block, free and inode counts, group sizes, identifier and name at their offsets fit and its 1024 bytes leave no remainder. |
| Ext4.AcceptedReports | tools/ext4_image.py:232-257 | The counts, recovery state and checksum then reported are those at their offsets. |
| Ext4.BurstRefused | tools/ext4_image.py:157-230 | Any change within four consecutive bytes of an accepted superblock, its checksum included, is refused. |
| Ext4.SingleByteRefused | tools/ext4_image.py:157-230 | So is any single-byte change. |
| Ext4.MutationRefused | tools/ext4_image.py:806-818 | Every superblock mutation of an accepted image is refused. |
| Ext4.MutationIs | tools/ext4_image.py:806-818 | Each mutation gives its field the wrong value it is named after and leaves every other byte. |
| Ext4.MarkerAccepted | tools/ext4_image.py:648-663 | The marked image is accepted, needs recovery, and reports nothing else differently but the checksum. |
| Jbd2.BurstRefused | tools/ext4_image.py:364-402 | Any change of an accepted journal superblock within four consecutive bytes outside the checksum field, or within it, is refused. |
| Jbd2.SingleByteRefused | tools/ext4_image.py:364-402 | So is any single-byte change. |
| Jbd2.AcceptedIff | tools/ext4_image.py:364-402 | A journal superblock is accepted exactly when each field holds its one value and the stored word is the checksum of the block with that word zero. |
| Jbd2.Upgrade | tools/ext4_image.py:420-442 | The upgrade succeeds exactly on a block of the right size, geometry and UUID, and its result is accepted by the parser. |
| Jbd2.UpgradeFields | tools/ext4_image.py:434-439 | It changes nothing outside the feature, type and checksum fields, which then hold the profile. |
| Ext4Recovery.PrepareMarker | tools/ext4_image.py:629-665 | The recovery marker is set exactly on an unmarked image whose two superblocks are accepted; the final test never fails, the clone needs recovery and differs in nothing else reported but the checksum, and its journal is untouched. |
| Ext4Recovery.SampleAccepted | tools/ext4_image.py:157-230 | There is a superblock the parser accepts. |
| Ext4Recovery.SampleJournalAccepted | tools/ext4_image.py:364-402 | There is a journal superblock the parser accepts. |
| Ext4Recovery.SampleMarkable | tools/ext4_image.py:629-665 | There is an image that can be marked. |
| TrustSpec.HexLength | tools/make-package-trust.py:75-82 | A 64-character text gives a full key exactly when it has no white space. |
| TrustSpec.LoadSpec | tools/make-package-trust.py:55-93 | Loading succeeds exactly for 1 to 64 well-formed entries with distinct names and digests, and yields their records sorted by digest. |
| Sorting.LessIff | tools/make-package-trust.py:87-93 | The order is that of bytes: at the first difference the smaller byte comes first, and a prefix before its extensions. |
| TrustTable.BuildTable | tools/make-package-trust.py:96-111 | The builder succeeds exactly then and returns the encoding of those records. |
| TrustTable.AuditTable | tools/make-package-trust.py:114-146 | The auditor accepts exactly the canonical tables and returns their record count. |
| TrustTable.CanonicalIsEncoding | tools/make-package-trust.py:114-146 | Every accepted table equals, byte for byte, the re-encoding of the records read from it. |
| TrustTable.EncodingIsCanonical | tools/make-package-trust.py:96-146 | Every encoding of well-formed, strictly ordered records is accepted with their count. |
| TrustTable.BuiltAcceptedIff | tools/make-package-trust.py:96-146 | A built table is accepted, with the right count, exactly when no key text has white space. |
| TrustTable.SpacedKeyRefused | tools/make-package-trust.py:75-82 | A specification that builds and is then refused. |
| TrustTable.OrderIrrelevant | tools/make-package-trust.py:87-93 | Permuting the keys changes neither acceptance nor the table. |
| TrustTable.CanonicalIsBuilt | tools/make-package-trust.py:96-146 | Every accepted table with a key is the one built from the specification read back from it. |
| SdlCapture.FramesUnique | tools/audio-wav-host-test.py:46-51 | No two of the 4096 fixture frames are alike. |
| SdlCapture.SampleRamp | tools/audio-wav-host-test.py:46-51 | The samples start at 1000 and climb by 73, falling by 11927 whenever climbing would reach 13000. |
| SdlCapture.ExpectedFrames | tools/audio-wav-host-test.py:143-148 | The dictionary maps exactly the fixture's frames to their positions, so its size check never fails. |
| SdlCapture.NonzeroRuns | tools/audio-wav-host-test.py:119-134 | The runs are the maximal stretches of sound: their concatenation and their number. |
| SdlCapture.StepTracks | tools/audio-wav-host-test.py:157-183 | Each accepted frame keeps the meaning of segment, counts and last frame as eight growing groups. |
| SdlCapture.SegmentedRuns | tools/audio-wav-host-test.py:157-183 | A capture that splits into the eight groups never upsets the scan. |
| SdlCapture.VerifySdl | tools/audio-wav-host-test.py:137-206 | Accepts exactly when the non-silent frames split into eight consecutive groups, group k from chunk k mod 4, strictly increasing, at least 256 frames each; the final silence check never is the one that fails. |

## Left out

- FatNames.ShortNameBytes: takes names already upper-cased; Python's Unicode case mapping is not modelled.
- FatInspector.ComputeInspection: reports path and entry of each record; the entry offset and parent cluster of a record, and the `BPB` fields the report repeats, are not kept.
- FatSystem.BuildSystem: whether a profile has the measured digest and ELF header is an input; the capacity comparisons of the allocation loops are made once, before any byte is written.
- `build_full_data_image` and `verify_full_data`: five fixed files that fill the volume.
- `mutate_image` of the FAT32 tool, and the ext4 mutations of group descriptors, inodes, extents and directories, which external tools refuse.
- Capture.RunCaptured: the PCAP file holds the peer's frames only; CaptureAll.RunInCapture has other frames between them.
- TcpPeer.StepRefines: the TLS engine is an arbitrary source of bytes and exceptions; handshakes, request parsing and `response_body` are not modelled.
- Capture.AuditCapture: does not count HTTP requests or plaintext markers, and leaves out the final verdict over required counts.
- DHCP, DNS, ARP and HTTP behaviour of the network fixture, sockets and command lines.
- Packets.Ipv4: like Packets.Udp and Packets.Tcp, takes fields that fit their width; Python raises an error for others.
- TlsHandshake.ChainRecorded: SHA-256 is an arbitrary function.
- Reading PNG chunks and inflating them, the wallpaper resampler (`interpolate`, `build_pixels`) and the screenshot comparison.
- Ext4Recovery.PrepareMarker: the block of the journal, which an external tool finds, is an input; the file-system check that tool makes beside the two superblocks is not modelled.
- Ext4.ParseSuperblock: reports counts, recovery state and checksum; label, time stamps and last mount point are checked or ignored as in the source but not repeated.
- Ext4.MutationRefused: for the block-range mutation the image is shorter than 2^64 blocks, as every file is.
- Jbd2.BurstRefused: a change that straddles the edge of the checksum field is not covered, since the field is zeroed before the checksum is taken.
- TrustSpec.LoadSpec: starts after the JSON has been read; key texts outside ASCII are refused as not hexadecimal, where the source may refuse them as not lower-case.
- The native-audio profile, WAV headers and the fixture hashes of the audio test.
- Kernel sources, QEMU capture scripts, evidence assemblers and the RSD package and transaction tools.
