// The platform package trust table: a canonical encoding of trusted and revoked keys, and its auditor
// (tools/make-package-trust.py). SHA-256 is an arbitrary function `sha` to 32 bytes; the specification is taken
// after its JSON has been read.

module TrustSpec {
  import opened Bytes
  import opened Sorting

  const MAX_KEYS := 64

  datatype TrustError = KeyCount | BadName | NameTwice | BadKeyText | NotHexadecimal | BadStatus | KeyTwice
    | Length | BadMagic | BadHeader | RecordBounds | Reserved | BadDigest | BadRecord | WrongId | NotOrdered

  datatype Entry = Entry(name: string, text: string, status: string)

  datatype Record = Record(id: seq<Byte>, key: seq<Byte>, status: nat)

  type Hash = seq<Byte> -> seq<Byte>

  ghost predicate IsDigest(sha: Hash) {
    forall x :: |sha(x)| == 32
  }

  // Hexadecimal text

  predicate Space(c: char) {
    c == ' ' || '\t' <= c <= '\r'
  }

  function Digit(c: char): (v: int)
    ensures -1 <= v < 16
  {
    if '0' <= c <= '9' then c as int - '0' as int
    else if 'a' <= c <= 'f' then c as int - 'a' as int + 10
    else if 'A' <= c <= 'F' then c as int - 'A' as int + 10
    else -1
  }

  /** `bytes.fromhex`: pairs of digits, with white space allowed between pairs. */
  function FromHex(t: string): (r: Result<seq<Byte>, TrustError>) {
    if t == [] then Ok([])
    else if Space(t[0]) then FromHex(t[1..])
    else if |t| < 2 || Digit(t[0]) < 0 || Digit(t[1]) < 0 then Err(NotHexadecimal)
    else
      var rest :- FromHex(t[2..]);
      Ok([16 * Digit(t[0]) + Digit(t[1])] + rest)
  }

  ghost predicate HasSpace(t: string) {
    exists k :: 0 <= k < |t| && Space(t[k])
  }

  /** White space costs bytes: the key is full length exactly when there is none. */
  lemma {:induction false} HexLength(t: string)
    requires FromHex(t).Ok?
    ensures 2 * |FromHex(t).value| <= |t| && (2 * |FromHex(t).value| == |t| <==> !HasSpace(t))
    decreases |t|
  {
    if t == [] {
    } else if Space(t[0]) {
      HexLength(t[1..]);
    } else {
      HexLength(t[2..]);
      assert !Space(t[0]) && !Space(t[1]);
      assert forall k :: 2 <= k < |t| ==> t[k] == t[2..][k - 2];
      assert forall k :: 0 <= k < |t[2..]| ==> t[2..][k] == t[k + 2];
    }
  }

  function HexDigit(v: nat): (c: char)
    requires v < 16
    ensures Digit(c) == v && !Space(c) && !('A' <= c <= 'Z')
  {
    if v < 10 then '0' + v as char else 'a' + (v - 10) as char
  }

  function Hex(b: seq<Byte>): (t: string)
    ensures |t| == 2 * |b| && (forall k :: 0 <= k < |t| ==> !Space(t[k]) && !('A' <= t[k] <= 'Z'))
  {
    if b == [] then [] else [HexDigit(b[0] / 16), HexDigit(b[0] % 16)] + Hex(b[1..])
  }

  lemma {:induction false} HexRoundTrip(b: seq<Byte>)
    ensures FromHex(Hex(b)) == Ok(b)
    decreases |b|
  {
    if b != [] {
      HexRoundTrip(b[1..]);
      assert Hex(b)[2..] == Hex(b[1..]);
      assert b == [b[0]] + b[1..];
    }
  }

  // Entries

  predicate NameOk(name: string) {
    1 <= |name| <= 64 && forall k :: 0 <= k < |name| ==> ' ' <= name[k] <= '~'
  }

  predicate TextOk(t: string) {
    |t| == 64 && forall k :: 0 <= k < |t| ==> !('A' <= t[k] <= 'Z')
  }

  function StatusCode(s: string): (v: nat) {
    if s == "trusted" then 1 else if s == "revoked" then 2 else 0
  }

  /** An entry that can be recorded. */
  predicate EntryOk(e: Entry) {
    NameOk(e.name) && TextOk(e.text) && FromHex(e.text).Ok? && StatusCode(e.status) != 0
  }

  function RecordOf(e: Entry, sha: Hash): (r: Record)
    requires EntryOk(e)
  {
    var key := FromHex(e.text).value;
    Record(sha(key), key, StatusCode(e.status))
  }

  ghost predicate EntriesOk(entries: seq<Entry>) {
    forall k :: 0 <= k < |entries| ==> EntryOk(entries[k])
  }

  function RecordsOf(entries: seq<Entry>, sha: Hash): (rs: seq<Record>)
    requires EntriesOk(entries)
    ensures |rs| == |entries| && forall k :: 0 <= k < |rs| ==> rs[k] == RecordOf(entries[k], sha)
  {
    seq(|entries|, k requires 0 <= k < |entries| => RecordOf(entries[k], sha))
  }

  ghost predicate NamesDistinct(entries: seq<Entry>) {
    forall i, j :: 0 <= i < j < |entries| ==> entries[i].name != entries[j].name
  }

  function ById(): (key: Record -> seq<Byte>) {
    (r: Record) => r.id
  }

  predicate Repeats(rs: seq<Record>) {
    exists k :: 0 < k < |rs| && rs[k - 1].id == rs[k].id
  }

  /** The loop over the entries, then sorting and the check for equal neighbours. */
  method LoadSpec(entries: seq<Entry>, sha: Hash) returns (r: Result<seq<Record>, TrustError>)
    ensures r.Ok? <==> Acceptable(entries, sha)
    ensures r.Ok? ==> EntriesOk(entries) && r.value == Sort(ById(), RecordsOf(entries, sha))
  {
    hide NameOk, TextOk, FromHex;
    if !(1 <= |entries| <= MAX_KEYS) {
      return Err(KeyCount);
    }
    var records: seq<Record> := [];
    var names: set<string> := {};
    for i := 0 to |entries|
      invariant EntriesOk(entries[..i]) && NamesDistinct(entries[..i])
      invariant records == RecordsOf(entries[..i], sha)
      invariant names == set k | 0 <= k < i :: entries[k].name
    {
      var e := entries[i];
      assert entries[..i + 1] == entries[..i] + [e];
      if !NameOk(e.name) {
        return Err(BadName);
      }
      if e.name in names {
        return Err(NameTwice);
      }
      names := names + {e.name};
      if !TextOk(e.text) {
        return Err(BadKeyText);
      }
      if FromHex(e.text).Err? {
        return Err(NotHexadecimal);
      }
      if StatusCode(e.status) == 0 {
        return Err(BadStatus);
      }
      records := records + [RecordOf(e, sha)];
      assert entries[..i + 1][..i] == entries[..i];
    }
    assert entries[..|entries|] == entries;
    SortedRepeats(records);
    records := Sort(ById(), records);
    if Repeats(records) {
      return Err(KeyTwice);
    }
    return Ok(records);
  }

  /** Sorted identifiers repeat somewhere exactly when neighbours do. */
  lemma SortedRepeats(rs: seq<Record>)
    ensures Repeats(Sort(ById(), rs)) <==> !DistinctKeys(ById(), rs)
  {
    hide Sort;
    var key, s := ById(), Sort(ById(), rs);
    if DistinctKeys(key, rs) {
      DistinctPermuted(key, rs, s);
      NoRepeat(s);
    }
    if !Repeats(s) {
      SortSorts(key, rs);
      NeighboursApart(s);
      DistinctPermuted(key, s, rs);
    }
  }

  lemma NoRepeat(s: seq<Record>)
    requires DistinctKeys(ById(), s)
    ensures !Repeats(s)
  {
    forall k | 0 < k < |s|
      ensures s[k - 1].id != s[k].id
    {
      assert ById()(s[k - 1]) != ById()(s[k]);
    }
  }

  lemma NeighboursApart(s: seq<Record>)
    requires Sorted(ById(), s) && !Repeats(s)
    ensures StrictlySorted(ById(), s) && DistinctKeys(ById(), s)
  {
    var key := ById();
    forall i, j | 0 <= i < j < |s|
      ensures Less(key(s[i]), key(s[j])) && key(s[i]) != key(s[j])
    {
      Climb(s, i, j);
      LessTrichotomy(key(s[i]), key(s[j]));
    }
  }

  lemma {:induction false} Climb(s: seq<Record>, i: nat, j: nat)
    requires Sorted(ById(), s) && !Repeats(s) && i < j < |s|
    ensures Less(s[i].id, s[j].id)
    decreases j - i
  {
    assert !Less(ById()(s[j]), ById()(s[j - 1])) && s[j - 1].id != s[j].id;
    LessTrichotomy(s[j - 1].id, s[j].id);
    if i < j - 1 {
      Climb(s, i, j - 1);
      LessTransitive(s[i].id, s[j - 1].id, s[j].id);
    }
  }

  /** What a specification must be: 1 to 64 good entries, names apart, key digests apart. */
  ghost predicate Acceptable(entries: seq<Entry>, sha: Hash) {
    && 1 <= |entries| <= 64 && EntriesOk(entries) && NamesDistinct(entries)
    && DistinctKeys(ById(), RecordsOf(entries, sha))
  }
}

module TrustTable {
  import opened Bytes
  import opened Sorting
  import opened TrustSpec

  const HEADER_BYTES := 128
  const RECORD_BYTES := 96
  const MAGIC: seq<Byte> := [0x52, 0x53, 0x44, 0x4B, 0x45, 0x59, 0x30, 0x31]

  // Encoding

  function EncodeRecord(r: Record): (b: seq<Byte>)
    requires |r.id| == 32 && r.status < 0x1_0000
    ensures |b| == 64 + |r.key|
  {
    r.id + r.key + Le16(r.status) + Zeros(30)
  }

  ghost predicate Encodable(rs: seq<Record>) {
    |rs| <= MAX_KEYS && forall k :: 0 <= k < |rs| ==> |rs[k].id| == 32 && |rs[k].key| <= 32 && rs[k].status < 0x1_0000
  }

  function Body(rs: seq<Record>): (b: seq<Byte>)
    requires Encodable(rs)
    ensures |b| <= RECORD_BYTES * |rs|
    ensures |b| == RECORD_BYTES * |rs| <==> forall k :: 0 <= k < |rs| ==> |rs[k].key| == 32
  {
    if rs == [] then []
    else
      var n := |rs| - 1;
      Body(rs[..n]) + EncodeRecord(rs[n])
  }

  function Header(bodyBytes: nat, count: nat, digest: seq<Byte>): (h: seq<Byte>)
    requires bodyBytes <= RECORD_BYTES * MAX_KEYS && count <= MAX_KEYS && |digest| == 32
    ensures |h| == HEADER_BYTES
  {
    MAGIC + (Le16(1) + Le16(HEADER_BYTES) + Le32(0)) + (Le32(HEADER_BYTES + bodyBytes) + Le32(0)) +
    (Le32(count) + Le32(RECORD_BYTES)) + digest + Zeros(64)
  }

  function EncodeTable(rs: seq<Record>, sha: Hash): (t: seq<Byte>)
    requires Encodable(rs) && |sha(Body(rs))| == 32
  {
    Header(|Body(rs)|, |rs|, sha(Body(rs))) + Body(rs)
  }

  // Building

  lemma KeyLengths(entries: seq<Entry>, sha: Hash)
    requires IsDigest(sha) && Acceptable(entries, sha)
    ensures Encodable(Sort(ById(), RecordsOf(entries, sha)))
    ensures (forall k :: 0 <= k < |entries| ==> |Sort(ById(), RecordsOf(entries, sha))[k].key| == 32) <==>
            forall k :: 0 <= k < |entries| ==> !HasSpace(entries[k].text)
  {
    hide Sort, FromHex, HasSpace;
    var rs := RecordsOf(entries, sha);
    forall k | 0 <= k < |entries|
      ensures |rs[k].key| <= 32 && (|rs[k].key| == 32 <==> !HasSpace(entries[k].text))
    {
      HexLength(entries[k].text);
    }
    SameMembers(rs, Sort(ById(), rs));
  }

  lemma SameMembers(a: seq<Record>, b: seq<Record>)
    requires multiset(a) == multiset(b)
    ensures |a| == |b|
    ensures forall k :: 0 <= k < |b| ==> b[k] in a
    ensures forall k :: 0 <= k < |a| ==> a[k] in b
  {
    SameLength(a, b);
    forall k | 0 <= k < |b|
      ensures b[k] in a
    {
      assert b[k] in multiset(a);
    }
    forall k | 0 <= k < |a|
      ensures a[k] in b
    {
      assert a[k] in multiset(b);
    }
  }

  /** The builder: load, then append the records one by one behind the header. */
  method BuildTable(entries: seq<Entry>, sha: Hash) returns (r: Result<seq<Byte>, TrustError>)
    requires IsDigest(sha)
    ensures r.Ok? <==> Acceptable(entries, sha)
    ensures r.Ok? ==>
              var rs := Sort(ById(), RecordsOf(entries, sha));
              Encodable(rs) && r.value == EncodeTable(rs, sha)
  {
    hide Sort, Acceptable, EncodeRecord, Header;
    var loaded := LoadSpec(entries, sha);
    if loaded.Err? {
      return Err(loaded.error);
    }
    var records := loaded.value;
    KeyLengths(entries, sha);
    var encoded: seq<Byte> := [];
    for i := 0 to |records|
      invariant Encodable(records[..i]) && encoded == Body(records[..i])
    {
      assert records[..i + 1][..i] == records[..i];
      encoded := encoded + EncodeRecord(records[i]);
    }
    assert records[..|records|] == records;
    r := Ok(Header(|encoded|, |records|, sha(encoded)) + encoded);
  }

  // Auditing

  datatype HeaderView = HeaderView(version: nat, headerBytes: nat, flags: nat, total: nat, count: nat, recordBytes: nat)

  function ReadHeader(data: seq<Byte>): (h: HeaderView)
    requires |data| >= HEADER_BYTES
  {
    HeaderView(U16(data, 8), U16(data, 10), U32(data, 12), U32(data, 16) + 0x1_0000_0000 * U32(data, 20), U32(data, 24),
               U32(data, 28))
  }

  function RecordAt(records: seq<Byte>, i: nat): (r: seq<Byte>)
    requires RECORD_BYTES * (i + 1) <= |records|
    ensures |r| == RECORD_BYTES
  {
    records[RECORD_BYTES * i..RECORD_BYTES * (i + 1)]
  }

  function Decode(record: seq<Byte>): (r: Record)
    requires |record| == RECORD_BYTES
    ensures |r.id| == 32 && |r.key| == 32 && r.status < 0x1_0000
  {
    Record(record[..32], record[32..64], U16(record, 64))
  }

  /** A record the auditor lets through, on its own. */
  predicate RecordOk(record: seq<Byte>, sha: Hash)
    requires |record| == RECORD_BYTES
  {
    var r := Decode(record);
    (r.status == 1 || r.status == 2) && record[66..] == Zeros(30) && sha(r.key) == r.id
  }

  function DecodeAll(records: seq<Byte>, n: nat): (rs: seq<Record>)
    requires RECORD_BYTES * n <= |records|
    ensures |rs| == n && forall k :: 0 <= k < n ==> rs[k] == Decode(RecordAt(records, k))
  {
    seq(n, k requires 0 <= k < n => Decode(RecordAt(records, k)))
  }

  /** The auditor. */
  method AuditTable(data: seq<Byte>, sha: Hash) returns (r: Result<nat, TrustError>)
    ensures r.Ok? <==> Canonical(data, sha)
    ensures r.Ok? ==> |data| == HEADER_BYTES + RECORD_BYTES * r.value && r.value <= MAX_KEYS
  {
    hide ReadHeader, Less, Zeros, Decode, RecordAt;
    if !(HEADER_BYTES <= |data| <= HEADER_BYTES + MAX_KEYS * RECORD_BYTES) {
      return Err(Length);
    }
    if data[0..8] != MAGIC {
      return Err(BadMagic);
    }
    var h := ReadHeader(data);
    if h.version != 1 || h.headerBytes != HEADER_BYTES || h.flags != 0 || h.total != |data| || h.recordBytes != RECORD_BYTES {
      return Err(BadHeader);
    }
    var count := h.count;
    if count > MAX_KEYS || |data| != HEADER_BYTES + count * RECORD_BYTES {
      return Err(RecordBounds);
    }
    if data[64..HEADER_BYTES] != Zeros(64) {
      return Err(Reserved);
    }
    var records := data[HEADER_BYTES..];
    if sha(records) != data[32..64] {
      return Err(BadDigest);
    }
    var previous: seq<Byte> := [];
    for i := 0 to count
      invariant forall k :: 0 <= k < i ==> RecordOk(RecordAt(records, k), sha)
      invariant forall k :: 0 < k < i ==> Less(Decode(RecordAt(records, k - 1)).id, Decode(RecordAt(records, k)).id)
      invariant i > 0 ==> previous == Decode(RecordAt(records, i - 1)).id
    {
      var record := RecordAt(records, i);
      var decoded := Decode(record);
      if !(decoded.status == 1 || decoded.status == 2) || record[66..] != Zeros(30) {
        return Err(BadRecord);
      }
      if sha(decoded.key) != decoded.id {
        return Err(WrongId);
      }
      if i > 0 && !Less(previous, decoded.id) {
        return Err(NotOrdered);
      }
      previous := decoded.id;
    }
    return Ok(count);
  }

  /** The auditor's conditions in one place. */
  ghost predicate Canonical(data: seq<Byte>, sha: Hash) {
    && 128 <= |data| && data[0..8] == [0x52, 0x53, 0x44, 0x4B, 0x45, 0x59, 0x30, 0x31]
    && var h := ReadHeader(data);
       && h == HeaderView(1, 128, 0, |data|, h.count, 96)
       && h.count <= 64 && |data| == 128 + h.count * 96
       && data[64..128] == Zeros(64) && sha(data[128..]) == data[32..64]
       && (forall k :: 0 <= k < h.count ==> RecordOk(RecordAt(data[128..], k), sha))
       && (forall k :: 0 < k < h.count ==>
             Less(Decode(RecordAt(data[128..], k - 1)).id, Decode(RecordAt(data[128..], k)).id))
  }

  // Canonical tables are encodings, and encodings are canonical

  /** Records a table may hold. */
  ghost predicate TableRecords(rs: seq<Record>, sha: Hash) {
    && Encodable(rs) && StrictlySorted(ById(), rs)
    && forall k :: 0 <= k < |rs| ==> RecordGood(rs[k], sha)
  }

  predicate RecordGood(r: Record, sha: Hash) {
    |r.key| == 32 && (r.status == 1 || r.status == 2) && r.id == sha(r.key)
  }

  lemma Le16Of(data: seq<Byte>, at: nat)
    requires at + 2 <= |data|
    ensures data[at..at + 2] == Le16(U16(data, at))
  {
  }

  lemma Le32Of(data: seq<Byte>, at: nat)
    requires at + 4 <= |data|
    ensures data[at..at + 4] == Le32(U32(data, at))
  {
    DigitsOf(data[at], data[at + 1], data[at + 2], data[at + 3]);
    var v := U32(data, at);
    assert Le32(v)[0] == data[at] && Le32(v)[1] == data[at + 1] && Le32(v)[2] == data[at + 2] && Le32(v)[3] == data[at + 3];
  }

  lemma DigitsOf(b0: Byte, b1: Byte, b2: Byte, b3: Byte)
    ensures var v := b0 as int + 0x100 * (b1 as int) + 0x1_0000 * (b2 as int) + 0x100_0000 * (b3 as int);
            v % 0x100 == b0 && v / 0x100 % 0x100 == b1 && v / 0x1_0000 % 0x100 == b2 && v / 0x100_0000 == b3
  {
    var w2 := b2 as int + 0x100 * (b3 as int);
    var w1 := b1 as int + 0x100 * w2;
    var v := b0 as int + 0x100 * w1;
    assert v / 0x100 == w1 && v % 0x100 == b0;
    assert w1 / 0x100 == w2 && w1 % 0x100 == b1;
    assert w2 / 0x100 == b3 && w2 % 0x100 == b2;
    assert v / 0x1_0000 == v / 0x100 / 0x100;
    assert v / 0x100_0000 == v / 0x1_0000 / 0x100;
  }

  lemma Reads16(data: seq<Byte>, at: nat, v: nat)
    requires at + 2 <= |data| && v < 0x1_0000 && data[at..at + 2] == Le16(v)
    ensures U16(data, at) == v
  {
    assert data[at] == Le16(v)[0] && data[at + 1] == Le16(v)[1];
  }

  lemma Reads32(data: seq<Byte>, at: nat, v: nat)
    requires at + 4 <= |data| && v < 0x1_0000_0000 && data[at..at + 4] == Le32(v)
    ensures U32(data, at) == v
  {
    hide Le32;
    var w := data[at..at + 4];
    assert data[at] == w[0] && data[at + 1] == w[1] && data[at + 2] == w[2] && data[at + 3] == w[3];
  }

  /** The header of a canonical table is the one the builder writes. */
  lemma HeaderExact(data: seq<Byte>, count: nat)
    requires |data| == HEADER_BYTES + count * RECORD_BYTES && count <= MAX_KEYS && data[0..8] == MAGIC
    requires ReadHeader(data) == HeaderView(1, HEADER_BYTES, 0, |data|, count, RECORD_BYTES)
    requires data[64..HEADER_BYTES] == Zeros(64)
    ensures data[..HEADER_BYTES] == Header(count * RECORD_BYTES, count, data[32..64])
  {
    hide Le16, Le32, U16, U32, Zeros;
    Le16Of(data, 8);
    Le16Of(data, 10);
    Le32Of(data, 12);
    Le32Of(data, 16);
    Le32Of(data, 20);
    Le32Of(data, 24);
    Le32Of(data, 28);
    assert U32(data, 20) == 0 && U32(data, 16) == |data|;
    HeaderParts(data);
  }

  lemma HeaderParts(data: seq<Byte>)
    requires |data| >= HEADER_BYTES
    ensures data[..HEADER_BYTES] ==
            data[0..8] + (data[8..10] + data[10..12] + data[12..16]) + (data[16..20] + data[20..24]) +
            (data[24..28] + data[28..32]) + data[32..64] + data[64..HEADER_BYTES]
  {
  }

  /** What the auditor reads from a header the builder wrote. */
  lemma HeaderReads(bodyBytes: nat, count: nat, digest: seq<Byte>, body: seq<Byte>)
    requires bodyBytes <= RECORD_BYTES * MAX_KEYS && count <= MAX_KEYS && |digest| == 32
    ensures var data := Header(bodyBytes, count, digest) + body;
            && data[0..8] == MAGIC && data[32..64] == digest && data[64..HEADER_BYTES] == Zeros(64)
            && data[HEADER_BYTES..] == body
            && ReadHeader(data) == HeaderView(1, HEADER_BYTES, 0, HEADER_BYTES + bodyBytes, count, RECORD_BYTES)
  {
    hide Le16, Le32, U16, U32, Zeros;
    var data := Header(bodyBytes, count, digest) + body;
    assert data[8..10] == Le16(1) && data[10..12] == Le16(HEADER_BYTES) && data[12..16] == Le32(0);
    assert data[16..20] == Le32(HEADER_BYTES + bodyBytes) && data[20..24] == Le32(0);
    assert data[24..28] == Le32(count) && data[28..32] == Le32(RECORD_BYTES);
    Reads16(data, 8, 1);
    Reads16(data, 10, HEADER_BYTES);
    Reads32(data, 12, 0);
    Reads32(data, 16, HEADER_BYTES + bodyBytes);
    Reads32(data, 20, 0);
    Reads32(data, 24, count);
    Reads32(data, 28, RECORD_BYTES);
  }

  lemma RecordRoundTrip(r: Record, sha: Hash)
    requires |r.id| == 32 && RecordGood(r, sha)
    ensures |EncodeRecord(r)| == RECORD_BYTES && Decode(EncodeRecord(r)) == r && RecordOk(EncodeRecord(r), sha)
  {
    hide Le16, Zeros;
    var b := EncodeRecord(r);
    assert b[..32] == r.id && b[32..64] == r.key && b[64..66] == Le16(r.status) && b[66..] == Zeros(30);
    Reads16(b, 64, r.status);
  }

  lemma RecordExact(record: seq<Byte>, sha: Hash)
    requires |record| == RECORD_BYTES && RecordOk(record, sha)
    ensures RecordGood(Decode(record), sha) && EncodeRecord(Decode(record)) == record
  {
    hide Le16, Zeros, U16;
    Le16Of(record, 64);
    assert record == record[..32] + record[32..64] + record[64..66] + record[66..];
  }

  /** Reading the records of a body gives the records it was made of. */
  lemma {:induction false} BodyReads(rs: seq<Record>, sha: Hash, k: nat)
    requires Encodable(rs) && (forall i :: 0 <= i < |rs| ==> RecordGood(rs[i], sha)) && k < |rs|
    ensures |Body(rs)| == RECORD_BYTES * |rs|
    ensures Decode(RecordAt(Body(rs), k)) == rs[k] && RecordOk(RecordAt(Body(rs), k), sha)
    decreases |rs|
  {
    hide EncodeRecord, Decode, RecordOk;
    var n := |rs| - 1;
    var (init, body) := (Body(rs[..n]), Body(rs));
    RecordRoundTrip(rs[n], sha);
    if k < n {
      BodyReads(rs[..n], sha, k);
      assert RecordAt(body, k) == RecordAt(init, k);
    } else {
      assert RecordAt(body, k) == EncodeRecord(rs[n]);
    }
  }

  lemma {:induction false} BodyExact(records: seq<Byte>, sha: Hash, n: nat)
    requires RECORD_BYTES * n <= |records| && n <= MAX_KEYS
    requires forall k :: 0 <= k < n ==> RecordOk(RecordAt(records, k), sha)
    ensures Encodable(DecodeAll(records, n)) && Body(DecodeAll(records, n)) == records[..RECORD_BYTES * n]
    decreases n
  {
    hide EncodeRecord, RecordOk;
    if n > 0 {
      BodyExact(records, sha, n - 1);
      var rs := DecodeAll(records, n);
      assert rs[..n - 1] == DecodeAll(records, n - 1);
      var last := RecordAt(records, n - 1);
      RecordExact(last, sha);
      assert records[..RECORD_BYTES * n] == records[..RECORD_BYTES * (n - 1)] + last;
    }
  }

  /** The auditor accepts nothing but encodings: a canonical table is byte for byte the re-encoding of the
      records read from it. */
  lemma CanonicalIsEncoding(data: seq<Byte>, sha: Hash)
    requires IsDigest(sha) && Canonical(data, sha)
    ensures var n := ReadHeader(data).count;
            && |data| == HEADER_BYTES + n * RECORD_BYTES
            && var rs := DecodeAll(data[HEADER_BYTES..], n);
               TableRecords(rs, sha) && data == EncodeTable(rs, sha)
  {
    hide RecordOk, RecordAt, ReadHeader, Header, Body, Less, RecordGood;
    var n := ReadHeader(data).count;
    var records := data[HEADER_BYTES..];
    var rs := DecodeAll(records, n);
    BodyExact(records, sha, n);
    assert records[..RECORD_BYTES * n] == records;
    HeaderExact(data, n);
    assert data == data[..HEADER_BYTES] + records;
    forall k | 0 <= k < n
      ensures RecordGood(rs[k], sha)
    {
      RecordExact(RecordAt(records, k), sha);
    }
    AdjacentSorted(rs);
  }

  lemma AdjacentSorted(rs: seq<Record>)
    requires forall k :: 0 < k < |rs| ==> Less(rs[k - 1].id, rs[k].id)
    ensures StrictlySorted(ById(), rs)
  {
    forall i, j | 0 <= i < j < |rs|
      ensures Less(ById()(rs[i]), ById()(rs[j]))
    {
      ClimbTo(rs, i, j);
    }
  }

  lemma {:induction false} ClimbTo(rs: seq<Record>, i: nat, j: nat)
    requires (forall k :: 0 < k < |rs| ==> Less(rs[k - 1].id, rs[k].id)) && i < j < |rs|
    ensures Less(rs[i].id, rs[j].id)
    decreases j
  {
    hide Less;
    if i < j - 1 {
      ClimbTo(rs, i, j - 1);
      LessTransitive(rs[i].id, rs[j - 1].id, rs[j].id);
    }
  }

  /** Every encoding of good, strictly ordered records is canonical. */
  lemma EncodingIsCanonical(rs: seq<Record>, sha: Hash)
    requires IsDigest(sha) && TableRecords(rs, sha)
    ensures Canonical(EncodeTable(rs, sha), sha) && ReadHeader(EncodeTable(rs, sha)).count == |rs|
  {
    hide RecordOk, RecordAt, ReadHeader, Header, Less, RecordGood, Body;
    var data := EncodeTable(rs, sha);
    FullBody(rs, sha);
    HeaderReads(|Body(rs)|, |rs|, sha(Body(rs)), Body(rs));
    forall k | 0 <= k < |rs|
      ensures Decode(RecordAt(Body(rs), k)) == rs[k] && RecordOk(RecordAt(Body(rs), k), sha)
    {
      BodyReads(rs, sha, k);
    }
    forall k | 0 < k < |rs|
      ensures Less(rs[k - 1].id, rs[k].id)
    {
      assert Less(ById()(rs[k - 1]), ById()(rs[k]));
    }
  }

  lemma FullBody(rs: seq<Record>, sha: Hash)
    requires Encodable(rs) && forall i :: 0 <= i < |rs| ==> RecordGood(rs[i], sha)
    ensures |Body(rs)| == RECORD_BYTES * |rs|
  {
  }

  // Built tables

  /** The table of an acceptable specification. */
  ghost function Built(entries: seq<Entry>, sha: Hash): (t: seq<Byte>)
    requires IsDigest(sha) && Acceptable(entries, sha)
  {
    KeyLengths(entries, sha);
    EncodeTable(Sort(ById(), RecordsOf(entries, sha)), sha)
  }

  /** The auditor accepts a built table exactly when no key text contains white space, which the hexadecimal
      reader skips: such a key comes out short and the table's length no longer matches its count. */
  lemma BuiltAcceptedIff(entries: seq<Entry>, sha: Hash)
    requires IsDigest(sha) && Acceptable(entries, sha)
    ensures Canonical(Built(entries, sha), sha) <==> forall k :: 0 <= k < |entries| ==> !HasSpace(entries[k].text)
    ensures Canonical(Built(entries, sha), sha) ==> ReadHeader(Built(entries, sha)).count == |entries|
  {
    hide HasSpace, Canonical, Sort, FromHex, Header, ReadHeader, Body;
    KeyLengths(entries, sha);
    var rs := Sort(ById(), RecordsOf(entries, sha));
    if forall k :: 0 <= k < |entries| ==> !HasSpace(entries[k].text) {
      GoodRecords(entries, sha);
      EncodingIsCanonical(rs, sha);
    } else {
      ShortRefused(rs, sha);
    }
  }

  lemma GoodRecords(entries: seq<Entry>, sha: Hash)
    requires IsDigest(sha) && Acceptable(entries, sha)
    requires forall k :: 0 <= k < |entries| ==> |Sort(ById(), RecordsOf(entries, sha))[k].key| == 32
    ensures TableRecords(Sort(ById(), RecordsOf(entries, sha)), sha)
  {
    hide Sort, FromHex;
    var rs, sorted := RecordsOf(entries, sha), Sort(ById(), RecordsOf(entries, sha));
    KeyLengths(entries, sha);
    SortStrict(ById(), rs);
    SameMembers(rs, sorted);
    forall k | 0 <= k < |sorted|
      ensures RecordGood(sorted[k], sha)
    {
      assert sorted[k] in rs;
    }
  }

  lemma ShortRefused(rs: seq<Record>, sha: Hash)
    requires IsDigest(sha) && Encodable(rs) && exists k :: 0 <= k < |rs| && |rs[k].key| != 32
    ensures !Canonical(EncodeTable(rs, sha), sha)
  {
    hide RecordOk, RecordAt, ReadHeader, Header, Less;
    HeaderReads(|Body(rs)|, |rs|, sha(Body(rs)), Body(rs));
    assert |Body(rs)| < RECORD_BYTES * |rs|;
  }

  /** Such a specification exists: 62 digits and two spaces make a key of 31 bytes. */
  lemma SpacedKeyRefused(sha: Hash)
    requires IsDigest(sha)
    ensures var e := Entry("k", "  " + Hex(Zeros(31)), "trusted");
            Acceptable([e], sha) && !Canonical(Built([e], sha), sha)
  {
    hide Hex, Canonical, Built, FromHex;
    var text := "  " + Hex(Zeros(31));
    var e := Entry("k", text, "trusted");
    SpacedText();
    assert RecordsOf([e], sha) == [RecordOf(e, sha)];
    assert Acceptable([e], sha);
    BuiltAcceptedIff([e], sha);
    assert Space(text[0]);
    assert HasSpace([e][0].text);
  }

  lemma SkipSpace(t: string)
    ensures FromHex(" " + t) == FromHex(t)
  {
    assert (" " + t)[1..] == t;
  }

  lemma SpacedText()
    ensures var text := "  " + Hex(Zeros(31)); TextOk(text) && FromHex(text) == Ok(Zeros(31))
  {
    hide Hex, FromHex;
    var h := Hex(Zeros(31));
    HexRoundTrip(Zeros(31));
    SkipSpace(h);
    SkipSpace(" " + h);
    assert "  " + h == " " + (" " + h);
  }

  /** The order of the keys in the specification does not matter. */
  lemma OrderIrrelevant(a: seq<Entry>, b: seq<Entry>, sha: Hash)
    requires IsDigest(sha) && multiset(a) == multiset(b) && Acceptable(a, sha)
    ensures Acceptable(b, sha) && Built(a, sha) == Built(b, sha)
  {
    hide EncodeTable, EntryOk;
    Permuted(a, b, sha);
    var (ra, rb) := (RecordsOf(a, sha), RecordsOf(b, sha));
    DistinctPermuted(ById(), ra, rb);
    SortStrict(ById(), ra);
    SortStrict(ById(), rb);
    SortedUnique(ById(), Sort(ById(), ra), Sort(ById(), rb));
  }

  lemma Permuted(a: seq<Entry>, b: seq<Entry>, sha: Hash)
    requires multiset(a) == multiset(b) && EntriesOk(a) && NamesDistinct(a)
    ensures |a| == |b| && EntriesOk(b) && NamesDistinct(b)
    ensures multiset(RecordsOf(a, sha)) == multiset(RecordsOf(b, sha))
  {
    hide EntryOk;
    SameLength(a, b);
    forall k | 0 <= k < |b|
      ensures EntryOk(b[k])
    {
      assert b[k] in multiset(a);
    }
    DistinctNames(a, b);
    RecordsPermuted(a, b, sha);
  }

  lemma {:induction false} DistinctNames(a: seq<Entry>, b: seq<Entry>)
    requires multiset(a) == multiset(b) && NamesDistinct(a)
    ensures NamesDistinct(b)
  {
    forall i, j | 0 <= i < j < |b|
      ensures b[i].name != b[j].name
    {
      assert b[i] in multiset(a) && b[j] in multiset(a);
      if b[i] == b[j] {
        TwiceInMultiset(b, i, j);
        OnceByName(a, b[i]);
      }
    }
  }

  lemma {:induction false} OnceByName(a: seq<Entry>, e: Entry)
    requires NamesDistinct(a)
    ensures multiset(a)[e] <= 1
    decreases |a|
  {
    if a != [] {
      assert a == [a[0]] + a[1..];
      OnceByName(a[1..], e);
      assert forall k :: 0 <= k < |a[1..]| ==> a[1..][k].name != a[0].name;
    }
  }

  /** Mapping a permutation gives a permutation. */
  lemma {:induction false} RecordsPermuted(a: seq<Entry>, b: seq<Entry>, sha: Hash)
    requires EntriesOk(a) && EntriesOk(b) && multiset(a) == multiset(b)
    ensures multiset(RecordsOf(a, sha)) == multiset(RecordsOf(b, sha))
    decreases |a|
  {
    hide EntryOk, RecordOf, RecordsOf, EntriesOk;
    SameLength(a, b);
    if a == [] {
      assert a == b;
    } else {
      var j := Found(a, b);
      RestsMatch(a, b, j);
      RecordsPermuted(a[1..], b[..j] + b[j + 1..], sha);
      Without(a, b, j, sha);
    }
  }

  lemma RestsMatch(a: seq<Entry>, b: seq<Entry>, j: nat)
    requires EntriesOk(a) && EntriesOk(b) && multiset(a) == multiset(b) && a != [] && j < |b| && b[j] == a[0]
    ensures EntriesOk(a[1..]) && EntriesOk(b[..j] + b[j + 1..])
    ensures multiset(a[1..]) == multiset(b[..j] + b[j + 1..])
  {
    hide EntryOk;
    assert a == [a[0]] + a[1..];
    Removed(b, j);
  }

  lemma Found(a: seq<Entry>, b: seq<Entry>) returns (j: nat)
    requires a != [] && multiset(a) == multiset(b)
    ensures j < |b| && b[j] == a[0]
  {
    assert a[0] in multiset(b);
    j :| 0 <= j < |b| && b[j] == a[0];
  }

  lemma Removed(b: seq<Entry>, j: nat)
    requires j < |b|
    ensures multiset(b[..j] + b[j + 1..]) == multiset(b) - multiset{b[j]}
    ensures EntriesOk(b) ==> EntriesOk(b[..j] + b[j + 1..])
  {
    hide EntryOk;
    RemovedElements(b, j);
    var rest := b[..j] + b[j + 1..];
    assert forall k :: 0 <= k < |rest| ==> rest[k] == if k < j then b[k] else b[k + 1];
  }

  lemma RemovedElements(b: seq<Entry>, j: nat)
    requires j < |b|
    ensures multiset(b[..j] + b[j + 1..]) == multiset(b) - multiset{b[j]}
  {
    assert b == b[..j] + [b[j]] + b[j + 1..];
  }

  lemma Without(a: seq<Entry>, b: seq<Entry>, j: nat, sha: Hash)
    requires EntriesOk(a) && EntriesOk(b) && j < |b| && a != [] && EntriesOk(a[1..]) && EntriesOk(b[..j] + b[j + 1..])
    ensures multiset(RecordsOf(a, sha)) == multiset{RecordOf(a[0], sha)} + multiset(RecordsOf(a[1..], sha))
    ensures multiset(RecordsOf(b, sha)) == multiset{RecordOf(b[j], sha)} + multiset(RecordsOf(b[..j] + b[j + 1..], sha))
  {
    hide EntryOk, RecordOf;
    assert RecordsOf(a, sha) == [RecordOf(a[0], sha)] + RecordsOf(a[1..], sha);
    var (rb, rest) := (RecordsOf(b, sha), RecordsOf(b[..j] + b[j + 1..], sha));
    assert rb == rest[..j] + [RecordOf(b[j], sha)] + rest[j..];
    assert rest == rest[..j] + rest[j..];
  }

  // Every canonical table has a specification

  function NameFor(k: nat): (name: string)
    ensures |name| == k + 1 && forall i :: 0 <= i < |name| ==> name[i] == 'k'
  {
    seq(k + 1, _ => 'k')
  }

  function SpecOf(rs: seq<Record>): (entries: seq<Entry>)
    ensures |entries| == |rs|
  {
    seq(|rs|, k requires 0 <= k < |rs| =>
      Entry(NameFor(k), Hex(rs[k].key), if rs[k].status == 1 then "trusted" else "revoked"))
  }

  lemma SpecAcceptable(rs: seq<Record>, sha: Hash)
    requires TableRecords(rs, sha) && rs != []
    ensures Acceptable(SpecOf(rs), sha) && RecordsOf(SpecOf(rs), sha) == rs
  {
    hide FromHex, Hex, Less;
    var entries := SpecOf(rs);
    forall k | 0 <= k < |rs|
      ensures EntryOk(entries[k]) && RecordOf(entries[k], sha) == rs[k]
    {
      HexRoundTrip(rs[k].key);
      assert RecordGood(rs[k], sha);
    }
    assert NamesDistinct(entries) by {
      forall i, j | 0 <= i < j < |entries|
        ensures entries[i].name != entries[j].name
      {
        assert |entries[i].name| == i + 1 && |entries[j].name| == j + 1;
      }
    }
    StrictDistinct(rs);
  }

  lemma StrictDistinct(rs: seq<Record>)
    requires StrictlySorted(ById(), rs)
    ensures DistinctKeys(ById(), rs)
  {
    forall i, j | 0 <= i < j < |rs|
      ensures ById()(rs[i]) != ById()(rs[j])
    {
      LessTrichotomy(ById()(rs[i]), ById()(rs[j]));
    }
  }

  /** Every canonical table with a key in it is the one built from the specification read back from it. */
  lemma CanonicalIsBuilt(data: seq<Byte>, sha: Hash)
    requires IsDigest(sha) && Canonical(data, sha) && ReadHeader(data).count > 0
    ensures |data| == HEADER_BYTES + ReadHeader(data).count * RECORD_BYTES
    ensures var entries := SpecOf(DecodeAll(data[HEADER_BYTES..], ReadHeader(data).count));
            Acceptable(entries, sha) && Built(entries, sha) == data
  {
    hide Canonical, ReadHeader, EncodeTable, DecodeAll, SpecOf, EntryOk, RecordGood;
    CanonicalIsEncoding(data, sha);
    var n := ReadHeader(data).count;
    var rs := DecodeAll(data[HEADER_BYTES..], n);
    SpecAcceptable(rs, sha);
    StrictDistinct(rs);
    SortStrict(ById(), rs);
    SortedUnique(ById(), Sort(ById(), rs), rs);
  }
}
