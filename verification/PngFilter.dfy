// Undoing PNG scanline filters (section 6 of RFC 2083), as three tools do it: tools/make-wallpaper-asset.py,
// tools/compare-rsd-proof-screenshot.py and tools/make-logo-asset.py.

module PngFilter {
  import opened Arithmetic
  import opened Bytes

  const MAX_KIND := 4

  function Abs(x: int): (r: nat) {
    if x < 0 then -x else x
  }

  // The Paeth predictor, written in two ways

  function MinIndex(a: nat, b: nat, c: nat): (k: nat)
    ensures k < 3
  {
    var least := if a <= b && a <= c then a else if b <= c then b else c;
    if a == least then 0 else if b == least then 1 else 2
  }

  /** The nearest of the three to left + up - upperLeft, the first one on a tie. */
  function Paeth(left: int, up: int, upperLeft: int): (r: int) {
    var estimate := left + up - upperLeft;
    [left, up, upperLeft][MinIndex(Abs(estimate - left), Abs(estimate - up), Abs(estimate - upperLeft))]
  }

  function NestedPaeth(left: int, up: int, upperLeft: int): (r: int) {
    var p := left + up - upperLeft;
    var pa, pb, pc := Abs(p - left), Abs(p - up), Abs(p - upperLeft);
    if pa <= pb && pa <= pc then left else if pb <= pc then up else upperLeft
  }

  lemma PaethAgree(left: int, up: int, upperLeft: int)
    ensures Paeth(left, up, upperLeft) == NestedPaeth(left, up, upperLeft)
    ensures Paeth(left, up, upperLeft) in {left, up, upperLeft}
  {
    var estimate := left + up - upperLeft;
    var k := MinIndex(Abs(estimate - left), Abs(estimate - up), Abs(estimate - upperLeft));
    assert k == 0 || k == 1 || k == 2;
  }

  /** `r` is the nearest of the three to left + up - upperLeft, by squared distance; on a tie it is the first
      of them in the order left, up, upper left. */
  ghost predicate Nearest(left: int, up: int, upperLeft: int, r: int) {
    var e := left + up - upperLeft;
    && (r == left || r == up || r == upperLeft)
    && (e - r) * (e - r) <= (e - left) * (e - left)
    && (e - r) * (e - r) <= (e - up) * (e - up)
    && (e - r) * (e - r) <= (e - upperLeft) * (e - upperLeft)
    && (r != left ==> (e - r) * (e - r) < (e - left) * (e - left))
    && (r != left && r != up ==> (e - r) * (e - r) < (e - up) * (e - up))
  }

  /** Distances compare as their squares do. */
  lemma SquaresCompare(x: int, y: int)
    ensures Abs(x) <= Abs(y) <==> x * x <= y * y
  {
    var (a, b) := (Abs(x), Abs(y));
    assert a * a == x * x && b * b == y * y;
    if a <= b {
      LessProduct(a, a, b);
      LessProduct(b, a, b);
    } else {
      LessProduct(a, b + 1, a);
      LessProduct(b, b, a);
      assert a * (b + 1) == a * b + a;
    }
  }

  /** Nearness settles the predictor: it is nearest, and nothing else is. */
  lemma PaethNearest(left: int, up: int, upperLeft: int, r: int)
    ensures Nearest(left, up, upperLeft, r) <==> r == Paeth(left, up, upperLeft)
  {
    var e := left + up - upperLeft;
    var (x, y, z) := (e - left, e - up, e - upperLeft);
    SquaresCompare(x, y);
    SquaresCompare(x, z);
    SquaresCompare(y, x);
    SquaresCompare(y, z);
    SquaresCompare(z, x);
    SquaresCompare(z, y);
    PaethAgree(left, up, upperLeft);
  }

  function Predict(kind: nat, left: Byte, up: Byte, upperLeft: Byte): (r: Byte) {
    if kind == 1 then left
    else if kind == 2 then up
    else if kind == 3 then (left as int + up as int) / 2
    else if kind == 4 then PaethAgree(left, up, upperLeft); Paeth(left, up, upperLeft)
    else 0
  }

  /** The prediction for byte `i` from the bytes before it and the row above. */
  function PredictAt(kind: nat, before: seq<Byte>, previous: seq<Byte>, channels: nat, i: nat): (r: Byte)
    requires channels > 0 && i <= |before| && i < |previous|
  {
    var left := if i >= channels then before[i - channels] else 0;
    var upperLeft := if i >= channels then previous[i - channels] else 0;
    Predict(kind, left, previous[i], upperLeft)
  }

  // One row

  /** What the encoder stores for a row. */
  function FilterRow(kind: nat, row: seq<Byte>, previous: seq<Byte>, channels: nat): (f: seq<Byte>)
    requires channels > 0 && |row| == |previous|
    ensures |f| == |row|
  {
    seq(|row|, i requires 0 <= i < |row| => (row[i] - PredictAt(kind, row, previous, channels, i)) % 0x100)
  }

  /** The first `n` bytes of the row a filtered row stands for. */
  function Rebuild(kind: nat, filtered: seq<Byte>, previous: seq<Byte>, channels: nat, n: nat): (row: seq<Byte>)
    requires channels > 0 && n <= |filtered| == |previous|
    ensures |row| == n
  {
    if n == 0 then []
    else
      var row := Rebuild(kind, filtered, previous, channels, n - 1);
      row + [(filtered[n - 1] + PredictAt(kind, row, previous, channels, n - 1)) % 0x100]
  }

  function UnfilterRow(kind: nat, filtered: seq<Byte>, previous: seq<Byte>, channels: nat): (row: seq<Byte>)
    requires channels > 0 && |filtered| == |previous|
    ensures |row| == |filtered|
  {
    Rebuild(kind, filtered, previous, channels, |filtered|)
  }

  lemma SamePrediction(kind: nat, a: seq<Byte>, b: seq<Byte>, previous: seq<Byte>, channels: nat, i: nat)
    requires channels > 0 && i <= |a| && i <= |b| && i < |previous| && a[..i] == b[..i]
    ensures PredictAt(kind, a, previous, channels, i) == PredictAt(kind, b, previous, channels, i)
  {
    assert i >= channels ==> a[i - channels] == a[..i][i - channels] && b[i - channels] == b[..i][i - channels];
  }

  /** Unfiltering inverts filtering, for every row, filter and channel count. */
  lemma {:induction false} UnfilterInverts(kind: nat, row: seq<Byte>, previous: seq<Byte>, channels: nat, n: nat)
    requires channels > 0 && n <= |row| == |previous|
    ensures Rebuild(kind, FilterRow(kind, row, previous, channels), previous, channels, n) == row[..n]
    decreases n
  {
    hide FilterRow, PredictAt, Rebuild;
    RebuildUnfolds(kind, FilterRow(kind, row, previous, channels), previous, channels, n);
    if n > 0 {
      UnfilterInverts(kind, row, previous, channels, n - 1);
      SamePrediction(kind, row, row[..n - 1], previous, channels, n - 1);
      FilterAt(kind, row, previous, channels, n - 1);
      assert row[..n] == row[..n - 1] + [row[n - 1]];
    }
  }

  lemma RebuildUnfolds(kind: nat, filtered: seq<Byte>, previous: seq<Byte>, channels: nat, n: nat)
    requires channels > 0 && n <= |filtered| == |previous|
    ensures Rebuild(kind, filtered, previous, channels, n) ==
            if n == 0 then []
            else
              var row := Rebuild(kind, filtered, previous, channels, n - 1);
              row + [(filtered[n - 1] + PredictAt(kind, row, previous, channels, n - 1)) % 0x100]
  {
    hide PredictAt;
  }

  lemma FilterAt(kind: nat, row: seq<Byte>, previous: seq<Byte>, channels: nat, i: nat)
    requires channels > 0 && i < |row| == |previous|
    ensures (FilterRow(kind, row, previous, channels)[i] + PredictAt(kind, row, previous, channels, i)) % 0x100 == row[i]
  {
    hide PredictAt;
  }

  lemma {:induction false} RebuildPrefix(kind: nat, filtered: seq<Byte>, previous: seq<Byte>, channels: nat, n: nat, m: nat)
    requires channels > 0 && n <= m <= |filtered| == |previous|
    ensures Rebuild(kind, filtered, previous, channels, m)[..n] == Rebuild(kind, filtered, previous, channels, n)
    decreases m - n
  {
    if n < m {
      RebuildPrefix(kind, filtered, previous, channels, n, m - 1);
    }
  }

  /** The byte `p` that a filter adds, from its neighbours, as section 6 of RFC 2083 defines the five filters. */
  ghost predicate IsPrediction(kind: nat, left: int, up: int, upperLeft: int, p: int) {
    match kind
    case 0 => p == 0
    case 1 => p == left
    case 2 => p == up
    case 3 => 2 * p <= left + up <= 2 * p + 1
    case 4 => Nearest(left, up, upperLeft, p)
    case _ => p == 0
  }

  /** Every byte of an unfiltered row exceeds the stored one, modulo 256, by what its filter predicts from the bytes
      one pixel to the left, above, and above that, bytes outside the image being zero. */
  lemma UnfilteredByte(kind: nat, filtered: seq<Byte>, previous: seq<Byte>, channels: nat, i: nat)
    requires channels > 0 && i < |filtered| == |previous|
    ensures var row := UnfilterRow(kind, filtered, previous, channels);
            var left: int := if i >= channels then row[i - channels] else 0;
            var upperLeft: int := if i >= channels then previous[i - channels] else 0;
            exists p: int :: 0 <= p < 256 && IsPrediction(kind, left, previous[i], upperLeft, p)
                             && row[i] as int == (filtered[i] as int + p) % 256
  {
    hide Nearest, Paeth, NestedPaeth, Rebuild, Predict;
    var row := UnfilterRow(kind, filtered, previous, channels);
    var before := Rebuild(kind, filtered, previous, channels, i);
    RebuildPrefix(kind, filtered, previous, channels, i, |filtered|);
    RebuildPrefix(kind, filtered, previous, channels, i + 1, |filtered|);
    RebuildUnfolds(kind, filtered, previous, channels, i + 1);
    assert row[i] == row[..i + 1][i];
    assert i >= channels ==> row[i - channels] == row[..i][i - channels];
    var left: Byte := if i >= channels then row[i - channels] else 0;
    var upperLeft: Byte := if i >= channels then previous[i - channels] else 0;
    var p := Predict(kind, left, previous[i], upperLeft);
    PredictIs(kind, left, previous[i], upperLeft);
    PaethNearest(left, previous[i], upperLeft, p);
    assert IsPrediction(kind, left, previous[i], upperLeft, p);
    assert row[i] as int == (filtered[i] as int + p as int) % 0x100;
  }

  /** And filtering inverts unfiltering. */
  lemma FilterInverts(kind: nat, filtered: seq<Byte>, previous: seq<Byte>, channels: nat)
    requires channels > 0 && |filtered| == |previous|
    ensures FilterRow(kind, UnfilterRow(kind, filtered, previous, channels), previous, channels) == filtered
  {
    hide Predict;
    var row := UnfilterRow(kind, filtered, previous, channels);
    var again := FilterRow(kind, row, previous, channels);
    forall i | 0 <= i < |row|
      ensures again[i] == filtered[i]
    {
      RebuildPrefix(kind, filtered, previous, channels, i, |row|);
      RebuildPrefix(kind, filtered, previous, channels, i + 1, |row|);
      var before := Rebuild(kind, filtered, previous, channels, i);
      SamePrediction(kind, row, before, previous, channels, i);
      assert row[..i + 1][i] == row[i];
    }
  }

  lemma PredictIs(kind: nat, left: Byte, up: Byte, upperLeft: Byte)
    ensures kind == 0 || kind > 4 ==> Predict(kind, left, up, upperLeft) == 0
    ensures kind == 1 ==> Predict(kind, left, up, upperLeft) == left
    ensures kind == 2 ==> Predict(kind, left, up, upperLeft) == up
    ensures kind == 3 ==> Predict(kind, left, up, upperLeft) == (left as int + up as int) / 2
    ensures kind == 4 ==> Predict(kind, left, up, upperLeft) == Paeth(left, up, upperLeft)
  {
  }

  lemma NothingRebuilt(kind: nat, filtered: seq<Byte>, previous: seq<Byte>, channels: nat)
    requires channels > 0 && |filtered| == |previous|
    ensures Rebuild(kind, filtered, previous, channels, 0) == []
  {
  }

  lemma RebuildStep(kind: nat, filtered: seq<Byte>, previous: seq<Byte>, channels: nat, before: seq<Byte>, left: Byte,
                    upperLeft: Byte)
    requires channels > 0 && |before| < |filtered| == |previous|
    requires before == Rebuild(kind, filtered, previous, channels, |before|)
    requires var i := |before|;
             && left == (if i >= channels then before[i - channels] else 0)
             && upperLeft == (if i >= channels then previous[i - channels] else 0)
    ensures var i := |before|;
            Rebuild(kind, filtered, previous, channels, i + 1) ==
            before + [(filtered[i] + Predict(kind, left, previous[i], upperLeft)) % 0x100]
  {
    hide Predict;
  }

  /** The in-place loop over one row: `line[index]` still holds the filtered byte when it is reached. */
  method UnfilterInPlace(kind: Byte, line: array<Byte>, previous: seq<Byte>, channels: nat)
    requires channels > 0 && line.Length == |previous| && kind <= MAX_KIND
    modifies line
    ensures line[..] == UnfilterRow(kind, old(line[..]), previous, channels)
  {
    hide Paeth, Rebuild, Predict;
    ghost var filtered := line[..];
    NothingRebuilt(kind, filtered, previous, channels);
    for i := 0 to line.Length
      invariant line[..i] == Rebuild(kind, filtered, previous, channels, i)
      invariant line[i..] == filtered[i..]
    {
      var left: Byte := if i >= channels then line[i - channels] else 0;
      var up: Byte := previous[i];
      var upperLeft: Byte := if i >= channels then previous[i - channels] else 0;
      ghost var before := line[..i];
      assert line[i] == filtered[i];
      RebuildStep(kind, filtered, previous, channels, before, left, upperLeft);
      PredictIs(kind, left, up, upperLeft);
      if kind == 1 {
        line[i] := (line[i] + left) % 0x100;
      } else if kind == 2 {
        line[i] := (line[i] + up) % 0x100;
      } else if kind == 3 {
        line[i] := (line[i] + (left as int + up as int) / 2) % 0x100;
      } else if kind == 4 {
        line[i] := (line[i] + Paeth(left, up, upperLeft)) % 0x100;
      }
      assert line[..i + 1] == before + [line[i]];
    }
    assert line[..line.Length] == line[..];
  }

  /** The logo tool's loop: nested Paeth, and an unknown kind leaves the row as it is. */
  method UnfilterLogoInPlace(kind: Byte, line: array<Byte>, previous: seq<Byte>)
    requires line.Length == |previous|
    modifies line
    ensures line[..] == UnfilterRow(KnownKind(kind), old(line[..]), previous, 4)
  {
    hide Paeth, NestedPaeth, Rebuild, Predict;
    ghost var filtered := line[..];
    ghost var k := KnownKind(kind);
    NothingRebuilt(k, filtered, previous, 4);
    for i := 0 to line.Length
      invariant line[..i] == Rebuild(k, filtered, previous, 4, i)
      invariant line[i..] == filtered[i..]
    {
      var left: Byte := if i >= 4 then line[i - 4] else 0;
      var up: Byte := previous[i];
      var upperLeft: Byte := if i >= 4 then previous[i - 4] else 0;
      PaethAgree(left, up, upperLeft);
      ghost var before := line[..i];
      assert line[i] == filtered[i];
      RebuildStep(k, filtered, previous, 4, before, left, upperLeft);
      PredictIs(k, left, up, upperLeft);
      assert line[i + 1..] == filtered[i + 1..];
      if kind == 1 {
        line[i] := (line[i] + left) % 0x100;
      } else if kind == 2 {
        line[i] := (line[i] + up) % 0x100;
      } else if kind == 3 {
        line[i] := (line[i] + (left as int + up as int) / 2) % 0x100;
      } else if kind == 4 {
        line[i] := (line[i] + NestedPaeth(left, up, upperLeft)) % 0x100;
      }
      assert line[..i + 1] == before + [line[i]];
    }
    assert line[..line.Length] == line[..];
  }

  // Whole images

  datatype PngError = TruncatedScanline | UnsupportedFilter | WrongLength | IndexOutOfRange

  function UnfilterRows(raw: seq<Byte>, previous: seq<Byte>, height: nat, channels: nat): (r: Result<seq<Byte>, PngError>)
    requires channels > 0
    decreases height
  {
    var stride := |previous|;
    if height == 0 then Ok([])
    else if stride + 1 > |raw| then Err(TruncatedScanline)
    else if raw[0] > MAX_KIND && stride > 0 then Err(UnsupportedFilter)
    else
      var line := UnfilterRow(raw[0], raw[1..1 + stride], previous, channels);
      var rest :- UnfilterRows(raw[stride + 1..], line, height - 1, channels);
      Ok(line + rest)
  }

  lemma OneRow(raw: seq<Byte>, kind: Byte, filtered: seq<Byte>, tail: seq<Byte>, previous: seq<Byte>, height: nat,
               channels: nat)
    requires channels > 0 && |filtered| == |previous| && height > 0 && (kind <= MAX_KIND || previous == [])
    requires raw == [kind] + filtered + tail
    ensures UnfilterRows(raw, previous, height, channels) ==
            var line := UnfilterRow(kind, filtered, previous, channels);
            match UnfilterRows(tail, line, height - 1, channels)
            case Ok(rest) => Ok(line + rest)
            case Err(e) => Err(e)
  {
    hide UnfilterRow;
    assert raw[0] == kind && raw[1..1 + |previous|] == filtered && raw[|previous| + 1..] == tail;
  }

  /** The wallpaper tool's reader. */
  method Unfilter(raw: seq<Byte>, width: nat, height: nat, channels: nat) returns (r: Result<seq<Byte>, PngError>)
    requires channels > 0
    ensures r == UnfilterRows(raw, Zeros(width * channels), height, channels)
  {
    hide UnfilterRow, UnfilterRows;
    var stride := width * channels;
    var output: seq<Byte> := [];
    var previous := Zeros(stride);
    var offset := 0;
    ghost var all := UnfilterRows(raw, previous, height, channels);
    assert raw[0..] == raw && (all.Ok? ==> [] + all.value == all.value);
    for y := 0 to height
      invariant offset <= |raw| && |previous| == stride
      invariant Continues(all, output, UnfilterRows(raw[offset..], previous, height - y, channels))
    {
      ghost var rest := raw[offset..];
      RowRefused(rest, previous, height - y, channels);
      if offset + stride + 1 > |raw| {
        return Err(TruncatedScanline);
      }
      var kind := raw[offset];
      if kind > MAX_KIND && stride > 0 {
        return Err(UnsupportedFilter);
      }
      var line := new Byte[stride](i requires 0 <= i < stride => raw[offset + 1 + i]);
      ghost var filtered, tail := line[..], raw[offset + stride + 1..];
      assert rest == [kind] + filtered + tail;
      OneRow(rest, kind, filtered, tail, previous, height - y, channels);
      offset := offset + stride + 1;
      if kind <= MAX_KIND {
        UnfilterInPlace(kind, line, previous, channels);
      } else {
        NoRow(kind, line[..], previous, channels);
      }
      ContinueWith(all, output, line[..], UnfilterRows(raw[offset..], line[..], height - y - 1, channels));
      output := output + line[..];
      previous := line[..];
    }
    NoRows(raw[offset..], previous, channels);
    assert output + [] == output;
    return Ok(output);
  }

  lemma RowRefused(raw: seq<Byte>, previous: seq<Byte>, height: nat, channels: nat)
    requires channels > 0 && height > 0
    ensures |previous| + 1 > |raw| ==> UnfilterRows(raw, previous, height, channels) == Err(TruncatedScanline)
    ensures |previous| + 1 <= |raw| && raw[0] > MAX_KIND && previous != [] ==>
              UnfilterRows(raw, previous, height, channels) == Err(UnsupportedFilter)
  {
  }

  lemma NoRow(kind: nat, row: seq<Byte>, previous: seq<Byte>, channels: nat)
    requires channels > 0 && |row| == |previous| == 0
    ensures UnfilterRow(kind, row, previous, channels) == row
  {
  }

  /** `all` is `rest` with `done` in front. */
  ghost predicate Continues(all: Result<seq<Byte>, PngError>, done: seq<Byte>, rest: Result<seq<Byte>, PngError>) {
    if rest.Ok? then all == Ok(done + rest.value) else all == rest
  }

  lemma ContinueWith(all: Result<seq<Byte>, PngError>, done: seq<Byte>, line: seq<Byte>, rest: Result<seq<Byte>, PngError>)
    requires Continues(all, done, if rest.Ok? then Ok(line + rest.value) else rest)
    ensures Continues(all, done + line, rest)
  {
    if rest.Ok? {
      assert done + (line + rest.value) == done + line + rest.value;
    }
  }

  /** The screenshot comparer's reader: RGB, and the body must have exactly the right length. */
  method ReadScreenshot(raw: seq<Byte>, width: nat, height: nat) returns (r: Result<seq<Byte>, PngError>)
    ensures r == if |raw| != height * (width * 3 + 1) then Err(WrongLength)
                 else UnfilterRows(raw, Zeros(width * 3), height, 3)
    ensures r.Err? ==> r.error != TruncatedScanline
  {
    if |raw| != height * (width * 3 + 1) {
      return Err(WrongLength);
    }
    LongEnough(raw, Zeros(width * 3), height, 3);
    r := Unfilter(raw, width, height, 3);
  }

  lemma {:induction false} LongEnough(raw: seq<Byte>, previous: seq<Byte>, height: nat, channels: nat)
    requires channels > 0 && |raw| >= height * (|previous| + 1)
    ensures var r := UnfilterRows(raw, previous, height, channels); r.Err? ==> r.error == UnsupportedFilter
    decreases height
  {
    hide UnfilterRow;
    if height > 0 {
      var stride := |previous|;
      assert height * (stride + 1) == (stride + 1) + (height - 1) * (stride + 1);
      NonNegative(height - 1, stride + 1);
      LongEnough(raw[stride + 1..], UnfilterRow(raw[0], raw[1..1 + stride], previous, channels), height - 1, channels);
    }
  }

  // The encoder's image and the round trip

  ghost predicate Uniform(rows: seq<seq<Byte>>, stride: nat) {
    forall k :: 0 <= k < |rows| ==> |rows[k]| == stride
  }

  function Flatten(rows: seq<seq<Byte>>): (s: seq<Byte>) {
    if rows == [] then [] else rows[0] + Flatten(rows[1..])
  }

  function FilterRows(kinds: seq<Byte>, rows: seq<seq<Byte>>, previous: seq<Byte>, channels: nat): (raw: seq<Byte>)
    requires channels > 0 && |kinds| == |rows| && Uniform(rows, |previous|)
    decreases |rows|
  {
    if rows == [] then []
    else
      ([kinds[0]] + FilterRow(kinds[0], rows[0], previous, channels)) +
      FilterRows(kinds[1..], rows[1..], rows[0], channels)
  }

  /** For every image, channel count and per-row choice of filter, unfiltering gives the image back; bytes
      after the last row are ignored. */
  lemma {:induction false} ImageRoundTrip(kinds: seq<Byte>, rows: seq<seq<Byte>>, previous: seq<Byte>, channels: nat,
                                          extra: seq<Byte>)
    requires channels > 0 && |kinds| == |rows| && Uniform(rows, |previous|)
    requires forall k :: 0 <= k < |kinds| ==> kinds[k] <= MAX_KIND
    ensures UnfilterRows(FilterRows(kinds, rows, previous, channels) + extra, previous, |rows|, channels) == Ok(Flatten(rows))
    decreases |rows|
  {
    hide FilterRow, UnfilterRow, UnfilterRows;
    if rows == [] {
      NoRows(extra, previous, channels);
      assert [] + extra == extra;
    } else {
      var first := FilterRow(kinds[0], rows[0], previous, channels);
      var later := FilterRows(kinds[1..], rows[1..], rows[0], channels);
      ImageRoundTrip(kinds[1..], rows[1..], rows[0], channels, extra);
      RowRoundTrip(kinds[0], rows[0], previous, channels);
      assert [kinds[0]] + first + later + extra == [kinds[0]] + first + (later + extra);
      OneRow([kinds[0]] + first + (later + extra), kinds[0], first, later + extra, previous, |rows|, channels);
    }
  }

  lemma NoRows(raw: seq<Byte>, previous: seq<Byte>, channels: nat)
    requires channels > 0
    ensures UnfilterRows(raw, previous, 0, channels) == Ok([])
  {
  }

  lemma RowRoundTrip(kind: nat, row: seq<Byte>, previous: seq<Byte>, channels: nat)
    requires channels > 0 && |row| == |previous|
    ensures UnfilterRow(kind, FilterRow(kind, row, previous, channels), previous, channels) == row
  {
    hide Rebuild, FilterRow;
    UnfilterInverts(kind, row, previous, channels, |row|);
  }

  /** The filter byte of row `y`, or zero where there is none. */
  function KindAt(raw: seq<Byte>, stride: nat, y: nat): (k: Byte) {
    NonNegative(y, stride + 1);
    var at := y * (stride + 1);
    if at < |raw| then raw[at] else 0
  }

  ghost predicate KindsKnown(raw: seq<Byte>, stride: nat, height: nat) {
    forall y :: 0 <= y < height ==> KindAt(raw, stride, y) <= MAX_KIND
  }

  lemma KindShift(raw: seq<Byte>, stride: nat, y: nat)
    requires stride + 1 <= |raw|
    ensures KindAt(raw, stride, y + 1) == KindAt(raw[stride + 1..], stride, y)
  {
    NonNegative(y, stride + 1);
    assert (y + 1) * (stride + 1) == y * (stride + 1) + (stride + 1);
  }

  lemma KindsStep(raw: seq<Byte>, stride: nat, height: nat)
    requires stride + 1 <= |raw| && height > 0
    ensures KindsKnown(raw, stride, height) <==> raw[0] <= MAX_KIND && KindsKnown(raw[stride + 1..], stride, height - 1)
  {
    hide KindAt;
    assert KindAt(raw, stride, 0) == raw[0] by { FirstKind(raw, stride); }
    var rest := raw[stride + 1..];
    if KindsKnown(raw, stride, height) {
      forall y | 0 <= y < height - 1
        ensures KindAt(rest, stride, y) <= MAX_KIND
      {
        KindShift(raw, stride, y);
      }
    }
    if raw[0] <= MAX_KIND && KindsKnown(rest, stride, height - 1) {
      forall y | 0 <= y < height
        ensures KindAt(raw, stride, y) <= MAX_KIND
      {
        if y > 0 {
          KindShift(raw, stride, y - 1);
        }
      }
    }
  }

  lemma FirstKind(raw: seq<Byte>, stride: nat)
    requires raw != []
    ensures KindAt(raw, stride, 0) == raw[0]
  {
  }

  /** When an image is accepted: every row is there, and (unless rows are empty) every filter is known. */
  lemma {:induction false} AcceptedIff(raw: seq<Byte>, previous: seq<Byte>, height: nat, channels: nat)
    requires channels > 0
    ensures UnfilterRows(raw, previous, height, channels).Ok? <==>
            height * (|previous| + 1) <= |raw| && (previous == [] || KindsKnown(raw, |previous|, height))
    decreases height
  {
    hide UnfilterRow, KindsKnown;
    var stride := |previous|;
    if height == 0 {
      NoKinds(raw, stride);
    } else {
      assert height * (stride + 1) == (stride + 1) + (height - 1) * (stride + 1);
      NonNegative(height - 1, stride + 1);
      if stride + 1 <= |raw| {
        AcceptedIff(raw[stride + 1..], UnfilterRow(raw[0], raw[1..1 + stride], previous, channels), height - 1, channels);
        KindsStep(raw, stride, height);
      }
    }
  }

  /** A row of no pixels is accepted with a filter that does not exist. */
  lemma EmptyRowAccepted()
    ensures !KindsKnown([9], 0, 1) && UnfilterRows([9], [], 1, 3) == Ok([])
  {
    var raw: seq<Byte> := [9];
    FirstKind(raw, 0);
    assert KindAt(raw, 0, 0) > MAX_KIND;
    EmptyRow(raw, 1);
  }

  lemma EmptyRow(raw: seq<Byte>, height: nat)
    requires |raw| == 1 && height == 1
    ensures UnfilterRows(raw, [], height, 3) == Ok([])
  {
    var line := UnfilterRow(raw[0], [], [], 3);
    assert raw == [raw[0]] + [] + [];
    OneRow(raw, raw[0], [], [], [], height, 3);
    assert line + [] == [];
  }

  lemma NoKinds(raw: seq<Byte>, stride: nat)
    ensures KindsKnown(raw, stride, 0)
  {
  }

  /** Nothing else unfilters to the image: the accepted bytes are the filtering of what came out. */
  lemma {:induction false} AcceptedIsFiltered(raw: seq<Byte>, previous: seq<Byte>, height: nat, channels: nat)
    returns (kinds: seq<Byte>, rows: seq<seq<Byte>>)
    requires channels > 0 && UnfilterRows(raw, previous, height, channels).Ok?
    ensures |kinds| == |rows| == height && Uniform(rows, |previous|)
    ensures UnfilterRows(raw, previous, height, channels).value == Flatten(rows)
    ensures FilterRows(kinds, rows, previous, channels) <= raw
    decreases height
  {
    hide FilterRow, UnfilterRow;
    if height == 0 {
      kinds, rows := [], [];
    } else {
      var stride := |previous|;
      var filtered := raw[1..1 + stride];
      var line := UnfilterRow(raw[0], filtered, previous, channels);
      FilterInverts(raw[0], filtered, previous, channels);
      var ks, rs := AcceptedIsFiltered(raw[stride + 1..], line, height - 1, channels);
      kinds, rows := [raw[0]] + ks, [line] + rs;
      assert kinds[1..] == ks && rows[1..] == rs;
      assert raw == [raw[0]] + filtered + raw[stride + 1..];
    }
  }

  // The logo tool's reader, which checks nothing itself

  function KnownKind(kind: Byte): (k: nat) {
    if kind <= MAX_KIND then kind else 0
  }

  /** A short last row is an index error where a missing byte is read, and is taken as it is otherwise. */
  function LogoRows(raw: seq<Byte>, previous: seq<Byte>, height: nat): (r: Result<seq<Byte>, PngError>)
    decreases height
  {
    var stride := |previous|;
    if height == 0 then Ok([])
    else if raw == [] then Err(IndexOutOfRange)
    else if |raw| < stride + 1 then
      if KnownKind(raw[0]) != 0 || |raw| - 1 + 4 < stride || height > 1 then Err(IndexOutOfRange) else Ok(raw[1..])
    else
      var line := UnfilterRow(KnownKind(raw[0]), raw[1..1 + stride], previous, 4);
      var rest :- LogoRows(raw[stride + 1..], line, height - 1);
      Ok(line + rest)
  }

  method UnfilterLogo(raw: seq<Byte>, width: nat, height: nat) returns (r: Result<seq<Byte>, PngError>)
    ensures r == LogoRows(raw, Zeros(width * 4), height)
  {
    hide UnfilterRow;
    var stride := width * 4;
    var output: seq<Byte> := [];
    var previous := Zeros(stride);
    var offset := 0;
    ghost var all := LogoRows(raw, previous, height);
    assert raw[0..] == raw && (all.Ok? ==> [] + all.value == all.value);
    for y := 0 to height
      invariant offset <= |raw| && |previous| == stride
      invariant Continues(all, output, LogoRows(raw[offset..], previous, height - y))
    {
      ghost var rest := raw[offset..];
      if offset >= |raw| {
        return Err(IndexOutOfRange);
      }
      var kind := raw[offset];
      if offset + stride + 1 > |raw| {
        var line := raw[offset + 1..];
        assert line == rest[1..];
        if KnownKind(kind) != 0 || |line| + 4 < stride || y + 1 < height {
          return Err(IndexOutOfRange);
        }
        return Ok(output + line);
      }
      var line := new Byte[stride](i requires 0 <= i < stride => raw[offset + 1 + i]);
      assert line[..] == rest[1..1 + stride] && rest[stride + 1..] == raw[offset + stride + 1..];
      offset := offset + stride + 1;
      UnfilterLogoInPlace(kind, line, previous);
      ContinueWith(all, output, line[..], LogoRows(raw[offset..], line[..], height - y - 1));
      output := output + line[..];
      previous := line[..];
    }
    assert output + [] == output;
    return Ok(output);
  }

  /** Whatever the checking readers accept, the logo tool reads to the same pixels. */
  lemma {:induction false} ReadersAgree(raw: seq<Byte>, previous: seq<Byte>, height: nat)
    requires UnfilterRows(raw, previous, height, 4).Ok?
    ensures LogoRows(raw, previous, height) == UnfilterRows(raw, previous, height, 4)
    decreases height
  {
    hide Rebuild;
    if height > 0 {
      var stride := |previous|;
      var filtered := raw[1..1 + stride];
      if stride == 0 {
        NoRow(raw[0], filtered, previous, 4);
        NoRow(KnownKind(raw[0]), filtered, previous, 4);
      }
      ReadersAgree(raw[stride + 1..], UnfilterRow(raw[0], filtered, previous, 4), height - 1);
    }
  }
}
