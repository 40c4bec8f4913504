// Directory clusters: 32-byte slots, short names, long-name records and the end marker
// (tools/fat32_image.py, the first half of _parse_directory).

module FatDirectory {
  import opened Bytes
  import opened FatChain

  type Text = seq<Byte>
  type Slot = s: seq<Byte> | |s| == ENTRY_BYTES witness Zeros(ENTRY_BYTES)
  type Owners = map<int, Text>

  datatype Entry = Entry(name: seq<Byte>, text: Text, attributes: Byte, firstCluster: nat, size: nat) {
    predicate IsDirectory() {
      attributes / 0x10 % 2 == 1
    }
  }

  // Short names

  /** The ASCII characters that `str.rstrip()` removes. */
  predicate IsSpace(b: Byte) {
    9 <= b <= 13 || 28 <= b <= 32
  }

  function RStrip(s: Text): (r: Text)
    ensures r <= s
    ensures forall i :: |r| <= i < |s| ==> IsSpace(s[i])
    ensures |r| > 0 ==> !IsSpace(r[|r| - 1])
  {
    if |s| > 0 && IsSpace(s[|s| - 1]) then RStrip(s[..|s| - 1]) else s
  }

  predicate IsAscii(s: seq<Byte>) {
    forall i :: 0 <= i < |s| ==> s[i] < 0x80
  }

  const DOT: Byte := 0x2E
  const SLASH: Byte := 0x2F
  const SPACE: Byte := 0x20

  function ShortNameText(name: seq<Byte>): (r: Result<Text, FatError>)
    requires |name| == 11
  {
    if !IsAscii(name) then Err(NotAscii)
    else
      var base, extension := RStrip(name[..8]), RStrip(name[8..]);
      if base == [] then Err(EmptyShortName)
      else Ok(base + if extension == [] then [] else [DOT] + extension)
  }

  /** `path.rstrip("/")` */
  function TrimSlashes(path: Text): (r: Text)
    ensures r <= path
  {
    if |path| > 0 && path[|path| - 1] == SLASH then TrimSlashes(path[..|path| - 1]) else path
  }

  function ChildPath(path: Text, text: Text): (r: Text) {
    if path == [SLASH] then text else TrimSlashes(path) + [SLASH] + text
  }

  function UpperByte(b: Byte): (r: Byte) {
    if 0x61 <= b <= 0x7A then b - 0x20 else b
  }

  /** `bytes.upper()` */
  function Upper(s: seq<Byte>): (r: seq<Byte>)
    ensures |r| == |s|
  {
    seq(|s|, i requires 0 <= i < |s| => UpperByte(s[i]))
  }

  function Padded(s: seq<Byte>, n: nat): (r: seq<Byte>)
    requires |s| <= n
    ensures |r| == n && s <= r
  {
    s + seq(n - |s|, _ => SPACE)
  }

  const DOT_NAME: seq<Byte> := Padded([DOT], 11)
  const DOTDOT_NAME: seq<Byte> := Padded([DOT, DOT], 11)

  predicate IsDotName(name: seq<Byte>) {
    name == DOT_NAME || name == DOTDOT_NAME
  }

  // One slot

  predicate IsEnd(s: Slot) {
    s[0] == 0
  }

  predicate IsLongName(s: Slot) {
    s[0] != 0 && s[0] != 0xE5 && s[11] == 0x0F
  }

  predicate IsOrdinary(s: Slot) {
    s[0] != 0 && s[0] != 0xE5 && s[11] != 0x0F
  }

  /** An ordinary slot that is not the volume label. */
  predicate IsListed(s: Slot) {
    IsOrdinary(s) && s[11] / 8 % 2 == 0
  }

  const LONG_NAME_OFFSETS: seq<nat> := [1, 3, 5, 7, 9, 14, 16, 18, 20, 22, 24, 28, 30]

  predicate LongNameHeaderOk(s: Slot) {
    1 <= s[0] % 0x20 <= 20 && s[12] == 0 && U16(s, 26) == 0
  }

  predicate CodePointOk(c: nat) {
    c == 0 || c == 0xFFFF || 0x20 <= c <= 0x7E
  }

  predicate LongNameTextOk(s: Slot) {
    forall i :: 0 <= i < |LONG_NAME_OFFSETS| ==> CodePointOk(U16(s, LONG_NAME_OFFSETS[i]))
  }

  function EntryOf(s: Slot, text: Text): (e: Entry) {
    Entry(s[..11], text, s[11], U16(s, 20) * 0x1_0000 + U16(s, 26), U32(s, 28))
  }

  // The scan, slot by slot

  datatype Scan = Scan(ended: bool, pending: bool, entries: seq<Entry>)

  /** One pass over slots with the long-name flag and the entries found so far. */
  function ScanSlots(ss: seq<Slot>, pending: bool, found: seq<Entry>): (r: Result<Scan, FatError>) {
    if ss == [] then Ok(Scan(false, pending, found))
    else
      var s := ss[0];
      if s[0] == 0 then Ok(Scan(true, pending, found))
      else if s[0] == 0xE5 then ScanSlots(ss[1..], false, found)
      else if s[11] == 0x0F then
        if !LongNameHeaderOk(s) then Err(MalformedLongName)
        else if !LongNameTextOk(s) then Err(InvalidLongNameText)
        else ScanSlots(ss[1..], true, found)
      else if pending then Err(LongNamesDisabled)
      else if s[11] / 8 % 2 == 1 then ScanSlots(ss[1..], false, found)
      else
        var text :- ShortNameText(s[..11]);
        ScanSlots(ss[1..], false, found + [EntryOf(s, text)])
  }

  /** The slots of one cluster. */
  function Slots(block: seq<Byte>): (ss: seq<Slot>)
    ensures |ss| == |block| / ENTRY_BYTES
  {
    seq(|block| / ENTRY_BYTES,
        i requires 0 <= i < |block| / ENTRY_BYTES => block[ENTRY_BYTES * i..ENTRY_BYTES * i + ENTRY_BYTES])
  }

  /** The scan of a directory chain; every cluster it enters is claimed for `path`. */
  function ScanChain(v: Volume, chain: seq<int>, path: Text, owners: Owners, pending: bool, found: seq<Entry>)
    : (r: Result<(seq<Entry>, Owners), FatError>)
    requires v.Valid() && forall i :: 0 <= i < |chain| ==> v.InRange(chain[i])
  {
    if chain == [] then Err(NoEndMarker)
    else if chain[0] in owners && owners[chain[0]] != path then Err(CrossLinkedDirectory)
    else
      var scan :- ScanSlots(Slots(v.data[chain[0]]), pending, found);
      if scan.ended then Ok((scan.entries, owners[chain[0] := path]))
      else ScanChain(v, chain[1..], path, owners[chain[0] := path], scan.pending, scan.entries)
  }

  // What a directory holds, independently of the scan

  /** The slots of a run of clusters, in order. */
  ghost function FlatSlots(v: Volume, clusters: seq<int>): (ss: seq<Slot>)
    requires v.Valid() && forall i :: 0 <= i < |clusters| ==> v.InRange(clusters[i])
  {
    if clusters == [] then [] else Slots(v.data[clusters[0]]) + FlatSlots(v, clusters[1..])
  }

  ghost predicate NoEnd(ss: seq<Slot>) {
    forall i :: 0 <= i < |ss| ==> !IsEnd(ss[i])
  }

  /** The slots before the end marker are acceptable: long-name records are well formed, an ordinary
      slot never follows one directly, and every listed name decodes. */
  ghost predicate WellFormedSlots(ss: seq<Slot>) {
    && NoEnd(ss)
    && (forall i :: 0 <= i < |ss| && IsLongName(ss[i]) ==> LongNameHeaderOk(ss[i]) && LongNameTextOk(ss[i]))
    && (forall i :: 1 <= i < |ss| && IsOrdinary(ss[i]) ==> !IsLongName(ss[i - 1]))
    && (forall i :: 0 <= i < |ss| && IsListed(ss[i]) ==> ShortNameText(ss[i][..11]).Ok?)
  }

  /** The listed entries of acceptable slots, in order. */
  ghost function Listing(ss: seq<Slot>): (es: seq<Entry>)
    requires forall i :: 0 <= i < |ss| && IsListed(ss[i]) ==> ShortNameText(ss[i][..11]).Ok?
  {
    if ss == [] then []
    else
      (if IsListed(ss[0]) then [EntryOf(ss[0], ShortNameText(ss[0][..11]).value)] else []) + Listing(ss[1..])
  }

  ghost predicate Reads(ss: seq<Slot>, k: nat, es: seq<Entry>) {
    && k <= |ss|
    && WellFormedSlots(ss[..k])
    && es == Listing(ss[..k])
  }

  /** `walked` is exactly as many clusters as it takes to reach the end marker, and `es` is what
      they list before it. */
  ghost predicate FolderContent(v: Volume, walked: seq<int>, es: seq<Entry>)
    requires v.Valid() && forall i :: 0 <= i < |walked| ==> v.InRange(walked[i])
  {
    && |walked| > 0
    && NoEnd(FlatSlots(v, walked[..|walked| - 1]))
    && exists k: nat :: k < |FlatSlots(v, walked)| && IsEnd(FlatSlots(v, walked)[k]) && Reads(FlatSlots(v, walked), k, es)
  }

  // The scan decides exactly that

  /** What a scan that stops before slot `k` (at the end marker or at the end of the slots) means. */
  ghost predicate ScanMeans(ss: seq<Slot>, pending: bool, found: seq<Entry>, k: nat, es: seq<Entry>) {
    && k <= |ss| && WellFormedSlots(ss[..k])
    && (pending && k > 0 ==> !IsOrdinary(ss[0]))
    && es == found + Listing(ss[..k])
  }

  lemma {:induction false} ScanSound(ss: seq<Slot>, pending: bool, found: seq<Entry>) returns (k: nat)
    requires ScanSlots(ss, pending, found).Ok?
    ensures k <= |ss|
    ensures var scan := ScanSlots(ss, pending, found).value;
            && ScanMeans(ss, pending, found, k, scan.entries)
            && (if scan.ended then k < |ss| && IsEnd(ss[k]) else k == |ss|)
            && scan.pending == (if k == 0 then pending else IsLongName(ss[k - 1]))
    decreases |ss|
  {
    hide ScanSlots, Listing, LongNameHeaderOk, LongNameTextOk, ShortNameText, EntryOf, IsListed, IsOrdinary;
    ScanUnfolds(ss, pending, found);
    if ss == [] || IsEnd(ss[0]) {
      NothingScanned(ss, found);
      return 0;
    }
    var s := ss[0];
    var pending' := IsLongName(s);
    var found' := found + FirstListed(s);
    var j := ScanSound(ss[1..], pending', found');
    k := j + 1;
    ScanStep(ss, k);
    assert j > 0 ==> ss[1..][0] == ss[1] && ss[1..][j - 1] == ss[k - 1];
    assert found' + Listing(ss[1..][..j]) == found + (FirstListed(s) + Listing(ss[1..][..j]));
  }

  /** What one slot adds to the listing. */
  function FirstListed(s: Slot): (es: seq<Entry>) {
    if IsListed(s) && ShortNameText(s[..11]).Ok? then [EntryOf(s, ShortNameText(s[..11]).value)] else []
  }

  predicate SlotOk(s: Slot) {
    && (IsLongName(s) ==> LongNameHeaderOk(s) && LongNameTextOk(s))
    && (IsListed(s) ==> ShortNameText(s[..11]).Ok?)
  }

  /** One step of the scan. */
  lemma ScanUnfolds(ss: seq<Slot>, pending: bool, found: seq<Entry>)
    ensures ss == [] ==> ScanSlots(ss, pending, found) == Ok(Scan(false, pending, found))
    ensures ss != [] && IsEnd(ss[0]) ==> ScanSlots(ss, pending, found) == Ok(Scan(true, pending, found))
    ensures ss != [] && !IsEnd(ss[0]) ==>
              if SlotOk(ss[0]) && !(pending && IsOrdinary(ss[0]))
              then ScanSlots(ss, pending, found) == ScanSlots(ss[1..], IsLongName(ss[0]), found + FirstListed(ss[0]))
              else ScanSlots(ss, pending, found).Err?
  {
    hide LongNameHeaderOk, LongNameTextOk, ShortNameText, EntryOf;
    assert found + [] == found;
  }

  lemma NothingScanned(ss: seq<Slot>, found: seq<Entry>)
    ensures WellFormedSlots(ss[..0]) && found + Listing(ss[..0]) == found
  {
  }

  /** One slot of a listing at a time. */
  lemma ScanStep(ss: seq<Slot>, k: nat)
    requires 0 < k <= |ss|
    ensures ss[..k][1..] == ss[1..][..k - 1]
    ensures WellFormedSlots(ss[..k]) <==>
            && !IsEnd(ss[0]) && SlotOk(ss[0])
            && WellFormedSlots(ss[1..][..k - 1])
            && (k > 1 && IsOrdinary(ss[1]) ==> !IsLongName(ss[0]))
    ensures WellFormedSlots(ss[..k]) ==> Listing(ss[..k]) == FirstListed(ss[0]) + Listing(ss[1..][..k - 1])
  {
    var a, b := ss[..k], ss[1..][..k - 1];
    assert a[1..] == b;
    assert a == [ss[0]] + b;
    if WellFormedSlots(a) {
      assert forall i :: 0 <= i < |b| ==> b[i] == a[i + 1];
    }
  }

  lemma {:induction false} ScanComplete(ss: seq<Slot>, pending: bool, found: seq<Entry>, k: nat, es: seq<Entry>)
    requires ScanMeans(ss, pending, found, k, es)
    requires k < |ss| ==> IsEnd(ss[k])
    ensures ScanSlots(ss, pending, found)
            == Ok(Scan(k < |ss|, if k == 0 then pending else IsLongName(ss[k - 1]), es))
    decreases |ss|
  {
    hide ScanSlots, Listing, FirstListed, IsOrdinary, LongNameHeaderOk, LongNameTextOk, ShortNameText, IsListed;
    ScanUnfolds(ss, pending, found);
    if k > 0 {
      var s := ss[0];
      ScanStep(ss, k);
      var found' := found + FirstListed(s);
      assert found' + Listing(ss[1..][..k - 1]) == found + (FirstListed(s) + Listing(ss[1..][..k - 1]));
      assert k > 1 ==> ss[1..][0] == ss[1] && ss[1..][k - 2] == ss[k - 1];
      assert k < |ss| ==> ss[1..][k - 1] == ss[k];
      ScanComplete(ss[1..], IsLongName(s), found', k - 1, es);
    } else {
      NothingScanned(ss, found);
    }
  }

  // The same for a chain of clusters

  lemma {:induction false} ScanAppend(a: seq<Slot>, b: seq<Slot>, pending: bool, found: seq<Entry>)
    ensures ScanSlots(a + b, pending, found) ==
            var r := ScanSlots(a, pending, found);
            if r.Ok? && !r.value.ended then ScanSlots(b, r.value.pending, r.value.entries) else r
    decreases |a|
  {
    if a == [] {
      assert a + b == b;
    } else {
      var s := a[0];
      assert (a + b)[1..] == a[1..] + b;
      if !IsEnd(s) {
        ScanAppend(a[1..], b, IsLongName(s), found);
        if IsListed(s) && ShortNameText(s[..11]).Ok? {
          ScanAppend(a[1..], b, false, found + [EntryOf(s, ShortNameText(s[..11]).value)]);
        }
      }
    }
  }

  ghost predicate Compatible(owners: Owners, clusters: seq<int>, path: Text) {
    forall c :: c in clusters && c in owners ==> owners[c] == path
  }

  /** `owners` after every cluster of a run has been claimed for `path`. */
  ghost function Claimed(owners: Owners, clusters: seq<int>, path: Text): (r: Owners) {
    owners + map c | c in clusters :: path
  }

  lemma ClaimedNone(owners: Owners, path: Text)
    ensures Claimed(owners, [], path) == owners && Compatible(owners, [], path)
  {
  }

  lemma ClaimedStep(owners: Owners, clusters: seq<int>, path: Text)
    requires clusters != []
    ensures Claimed(owners[clusters[0] := path], clusters[1..], path) == Claimed(owners, clusters, path)
    ensures Compatible(owners, clusters, path) <==>
            && (clusters[0] in owners ==> owners[clusters[0]] == path)
            && Compatible(owners[clusters[0] := path], clusters[1..], path)
  {
    assert clusters == [clusters[0]] + clusters[1..];
    assert forall c :: c in clusters <==> c == clusters[0] || c in clusters[1..];
  }

  /** The first cluster of a chain, then the rest. */
  lemma ScanCons(v: Volume, chain: seq<int>, w: nat, pending: bool, found: seq<Entry>)
    requires v.Valid() && forall i :: 0 <= i < |chain| ==> v.InRange(chain[i])
    requires 1 <= w <= |chain|
    ensures ScanSlots(FlatSlots(v, chain[..w]), pending, found) ==
            var r := ScanSlots(Slots(v.data[chain[0]]), pending, found);
            if r.Ok? && !r.value.ended
            then ScanSlots(FlatSlots(v, chain[1..][..w - 1]), r.value.pending, r.value.entries) else r
  {
    assert chain[..w][0] == chain[0] && chain[..w][1..] == chain[1..][..w - 1];
    ScanAppend(Slots(v.data[chain[0]]), FlatSlots(v, chain[1..][..w - 1]), pending, found);
  }

  lemma {:induction false} ScanChainSound(v: Volume, chain: seq<int>, path: Text, owners: Owners,
                                          pending: bool, found: seq<Entry>)
    returns (w: nat)
    requires v.Valid() && forall i :: 0 <= i < |chain| ==> v.InRange(chain[i])
    requires ScanChain(v, chain, path, owners, pending, found).Ok?
    ensures 1 <= w <= |chain|
    ensures var before := ScanSlots(FlatSlots(v, chain[..w - 1]), pending, found);
            before.Ok? && !before.value.ended
    ensures var all := ScanSlots(FlatSlots(v, chain[..w]), pending, found);
            && all.Ok? && all.value.ended
            && Compatible(owners, chain[..w], path)
            && ScanChain(v, chain, path, owners, pending, found)
               == Ok((all.value.entries, Claimed(owners, chain[..w], path)))
    decreases |chain|
  {
    hide Slots, Compatible, Claimed;
    var scan := ScanSlots(Slots(v.data[chain[0]]), pending, found).value;
    if scan.ended {
      w := 1;
      ScanCons(v, chain, 1, pending, found);
      ClaimedStep(owners, chain[..1], path);
      assert chain[..1][1..] == [];
      ClaimedNone(owners[chain[0] := path], path);
    } else {
      var w' := ScanChainSound(v, chain[1..], path, owners[chain[0] := path], scan.pending, scan.entries);
      w := w' + 1;
      ScanCons(v, chain, w, pending, found);
      ScanCons(v, chain, w', pending, found);
      assert chain[..w][1..] == chain[1..][..w'];
      ClaimedStep(owners, chain[..w], path);
    }
  }

  lemma {:induction false} ScanChainComplete(v: Volume, chain: seq<int>, path: Text, owners: Owners,
                                             pending: bool, found: seq<Entry>, w: nat)
    requires v.Valid() && forall i :: 0 <= i < |chain| ==> v.InRange(chain[i])
    requires 1 <= w <= |chain| && Compatible(owners, chain[..w], path)
    requires var before := ScanSlots(FlatSlots(v, chain[..w - 1]), pending, found);
             before.Ok? && !before.value.ended
    requires var all := ScanSlots(FlatSlots(v, chain[..w]), pending, found);
             all.Ok? && all.value.ended
    ensures ScanChain(v, chain, path, owners, pending, found)
            == Ok((ScanSlots(FlatSlots(v, chain[..w]), pending, found).value.entries,
                   Claimed(owners, chain[..w], path)))
    decreases |chain|
  {
    hide Slots, Compatible, Claimed;
    ClaimedNone(owners[chain[0] := path], path);
    ClaimedStep(owners, chain[..w], path);
    ScanCons(v, chain, w, pending, found);
    assert chain[..w][1..] == chain[1..][..w - 1];
    if w > 1 {
      ScanCons(v, chain, w - 1, pending, found);
      var scan := ScanSlots(Slots(v.data[chain[0]]), pending, found).value;
      ScanChainComplete(v, chain[1..], path, owners[chain[0] := path], scan.pending, scan.entries, w - 1);
    }
  }

  lemma {:induction false} FlatAppend(v: Volume, a: seq<int>, b: seq<int>)
    requires v.Valid() && forall i :: 0 <= i < |a| ==> v.InRange(a[i])
    requires forall i :: 0 <= i < |b| ==> v.InRange(b[i])
    ensures FlatSlots(v, a + b) == FlatSlots(v, a) + FlatSlots(v, b)
    decreases |a|
  {
    if a == [] {
      assert a + b == b;
    } else {
      assert (a + b)[1..] == a[1..] + b;
      FlatAppend(v, a[1..], b);
    }
  }

  /** A directory scan succeeds exactly when some prefix of the chain ends in an end marker with
      acceptable slots before it and nobody else owns a cluster of that prefix. */
  lemma ScanFindsContent(v: Volume, chain: seq<int>, path: Text, owners: Owners) returns (w: nat)
    requires v.Valid() && forall i :: 0 <= i < |chain| ==> v.InRange(chain[i])
    requires ScanChain(v, chain, path, owners, false, []).Ok?
    ensures 1 <= w <= |chain|
    ensures Compatible(owners, chain[..w], path)
    ensures var (es, owners') := ScanChain(v, chain, path, owners, false, []).value;
            FolderContent(v, chain[..w], es) && owners' == Claimed(owners, chain[..w], path)
  {
    hide ScanChain, ScanSlots, Compatible, Claimed, FlatSlots, Listing, LongNameHeaderOk, LongNameTextOk, ShortNameText,
         IsListed, IsOrdinary;
    w := ScanChainSound(v, chain, path, owners, false, []);
    assert chain[..w][..w - 1] == chain[..w - 1];
    ScannedHasNoEnd(FlatSlots(v, chain[..w - 1]));
    var ss := FlatSlots(v, chain[..w]);
    var k := ScanSound(ss, false, []);
    assert [] + Listing(ss[..k]) == Listing(ss[..k]);
    assert Reads(ss, k, ScanSlots(ss, false, []).value.entries);
  }

  lemma ScannedHasNoEnd(ss: seq<Slot>)
    requires ScanSlots(ss, false, []).Ok? && !ScanSlots(ss, false, []).value.ended
    ensures NoEnd(ss)
  {
    hide ScanSlots, Listing;
    var k := ScanSound(ss, false, []);
    assert ss[..|ss|] == ss;
  }

  lemma ReadSlotsScanned(before: seq<Slot>, all: seq<Slot>, k: nat, es: seq<Entry>)
    requires before <= all && NoEnd(before)
    requires k < |all| && IsEnd(all[k]) && Reads(all, k, es)
    ensures var r := ScanSlots(before, false, []); r.Ok? && !r.value.ended
    ensures var r := ScanSlots(all, false, []); r.Ok? && r.value.ended && r.value.entries == es
  {
    assert [] + Listing(all[..k]) == Listing(all[..k]);
    ScanComplete(all, false, [], k, es);
    assert forall i :: 0 <= i < |before| ==> before[i] == all[i];
    assert before[..|before|] == before;
    assert forall i :: 0 <= i < |before| ==> before[i] == all[..k][i];
    ScanComplete(before, false, [], |before|, [] + Listing(before));
  }

  lemma ContentFoundByScan(v: Volume, chain: seq<int>, w: nat, path: Text, owners: Owners, es: seq<Entry>)
    requires v.Valid() && forall i :: 0 <= i < |chain| ==> v.InRange(chain[i])
    requires 1 <= w <= |chain| && FolderContent(v, chain[..w], es)
    requires Compatible(owners, chain[..w], path)
    ensures ScanChain(v, chain, path, owners, false, []) == Ok((es, Claimed(owners, chain[..w], path)))
  {
    var all := FlatSlots(v, chain[..w]);
    assert chain[..w][..w - 1] == chain[..w - 1];
    assert chain[..w] == chain[..w - 1] + [chain[w - 1]];
    FlatAppend(v, chain[..w - 1], [chain[w - 1]]);
    var k: nat :| k < |all| && IsEnd(all[k]) && Reads(all, k, es);
    ReadSlotsScanned(FlatSlots(v, chain[..w - 1]), all, k, es);
    ScanChainComplete(v, chain, path, owners, false, [], w);
  }

  /** A chain has at most one walked prefix and one listing. */
  lemma ContentUnique(v: Volume, chain: seq<int>, w: nat, es: seq<Entry>, w': nat, es': seq<Entry>)
    requires v.Valid() && forall i :: 0 <= i < |chain| ==> v.InRange(chain[i])
    requires Distinct(chain)
    requires 1 <= w <= |chain| && FolderContent(v, chain[..w], es)
    requires 1 <= w' <= |chain| && FolderContent(v, chain[..w'], es')
    ensures w == w' && es == es'
  {
    hide FolderContent, ScanChain;
    ContentFoundByScan(v, chain, w, [], map[], es);
    ContentFoundByScan(v, chain, w', [], map[], es');
    assert Claimed(map[], chain[..w], []).Keys == Claimed(map[], chain[..w'], []).Keys;
    assert chain[w - 1] in chain[..w] && chain[w' - 1] in chain[..w'];
    assert chain[w - 1] in chain[..w'] && chain[w' - 1] in chain[..w];
  }
}
