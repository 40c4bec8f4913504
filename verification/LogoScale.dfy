// The logo tool's target size and box filter (fit_within and downscale in tools/make-logo-asset.py).

module LogoScale {
  import opened Bytes
  import opened Arithmetic
  import opened LogoCrop

  // The target size

  datatype FitError = MaximumNotPositive

  function AtLeastOne(v: nat): (r: nat) {
    if v < 1 then 1 else v
  }

  function Quotient(a: nat, b: nat): (q: nat)
    requires b > 0
    ensures q * b <= a < q * b + b
  {
    DivMod(a, b);
    a / b
  }

  /** `a * maximum / b`, rounded to the nearest. */
  function Proportion(a: nat, maximum: nat, b: nat): (q: nat)
    requires b > 0
    ensures q * b <= a * maximum + b / 2 < q * b + b
  {
    NonNegative(a, maximum);
    Quotient(a * maximum + b / 2, b)
  }

  function FitWithin(width: nat, height: nat, maximum: int): (r: Result<(nat, nat), FitError>) {
    if maximum <= 0 then Err(MaximumNotPositive)
    else if width <= maximum && height <= maximum then Ok((width, height))
    else if width >= height then Ok((maximum, AtLeastOne(Proportion(height, maximum, width))))
    else Ok((AtLeastOne(Proportion(width, maximum, height)), maximum))
  }

  lemma ProportionShrinks(a: nat, maximum: nat, b: nat)
    requires 0 < maximum < b && a <= b
    ensures Proportion(a, maximum, b) <= a && Proportion(a, maximum, b) <= maximum
  {
    var q := Proportion(a, maximum, b);
    if q > a {
      LargeMultiple(q - a, b);
      Distribute(q, a, b);
      LessProduct(a, maximum, b);
    }
    if q > maximum {
      LargeMultiple(q - maximum, b);
      Distribute(q, maximum, b);
      LessProduct(maximum, a, b);
    }
  }

  /** Neither side is enlarged exactly when the image fits already or has no empty side: a side of zero next to
      one that is too long is raised to one. */
  lemma NeverEnlargesIff(width: nat, height: nat, maximum: int)
    requires maximum > 0
    ensures var (w, h) := FitWithin(width, height, maximum).value;
            (w <= width && h <= height) <==> (width <= maximum && height <= maximum) || (width > 0 && height > 0)
  {
    hide Proportion;
    if width > maximum && width >= height {
      ProportionShrinks(height, maximum, width);
    } else if height > maximum {
      ProportionShrinks(width, maximum, height);
    }
  }

  lemma EmptySideEnlarged()
    ensures FitWithin(10, 0, 4) == Ok((4, 1))
  {
  }

  /** The result fits, and no side vanishes. */
  lemma FitFits(width: nat, height: nat, maximum: int)
    requires maximum > 0
    ensures var (w, h) := FitWithin(width, height, maximum).value;
            && w <= maximum && h <= maximum
            && (width > 0 && height > 0 ==> w > 0 && h > 0)
  {
    hide Proportion;
    if width > maximum && width >= height {
      ProportionShrinks(height, maximum, width);
    } else if height > maximum {
      ProportionShrinks(width, maximum, height);
    }
  }

  /** The nearest value to a * maximum / b, halves up, on the numbers alone. */
  lemma ProportionNearest(a: nat, maximum: nat, b: nat)
    requires b > 0
    ensures var q := Proportion(a, maximum, b); 0 - b < 2 * (q * b - a * maximum) <= b
  {
  }

  /** The aspect ratio is kept: the longer side becomes exactly the maximum, and the other side is the nearest to
      its share of it, halves up, or one where that nearest value is zero. */
  lemma AspectKept(width: nat, height: nat, maximum: int)
    requires maximum > 0 && (width > maximum || height > maximum)
    ensures var (w, h) := FitWithin(width, height, maximum).value;
            if width >= height
            then w == maximum && (0 - width < 2 * (h * width - height * maximum) <= width
                                  || (h == 1 && 2 * (height * maximum) < width))
            else h == maximum && (0 - height < 2 * (w * height - width * maximum) <= height
                                  || (w == 1 && 2 * (width * maximum) < height))
  {
    hide Proportion;
    if width >= height {
      ProportionNearest(height, maximum, width);
    } else {
      ProportionNearest(width, maximum, height);
    }
  }

  // Boxes

  /** Where box `k` of `parts` starts along a side of `length`. */
  function Start(k: nat, length: nat, parts: nat): (s: nat)
    requires parts > 0
    ensures s * parts <= k * length < s * parts + parts
  {
    NonNegative(k, length);
    Quotient(k * length, parts)
  }

  function End(k: nat, length: nat, parts: nat): (e: nat)
    requires parts > 0
  {
    var (s, e) := (Start(k, length, parts), Start(k + 1, length, parts));
    if e > s + 1 then e else s + 1
  }

  lemma StartsApart(k: nat, length: nat, parts: nat)
    requires 0 < parts <= length
    ensures Start(k, length, parts) < Start(k + 1, length, parts)
  {
    var (s, e) := (Start(k, length, parts), Start(k + 1, length, parts));
    assert (k + 1) * length == k * length + length;
    if e <= s {
      LessProduct(parts, e, s);
    }
  }

  /** Shrinking, each box ends where the next one starts. */
  lemma BoxesMeet(k: nat, length: nat, parts: nat)
    requires 0 < parts <= length
    ensures End(k, length, parts) == Start(k + 1, length, parts)
  {
    hide Start;
    StartsApart(k, length, parts);
  }

  lemma Ends(length: nat, parts: nat)
    requires parts > 0
    ensures Start(0, length, parts) == 0 && Start(parts, length, parts) == length
  {
    var (a, b) := (Start(0, length, parts), Start(parts, length, parts));
    assert 0 * length == 0;
    if a != 0 {
      LargeMultiple(a, parts);
    }
    if b != length {
      LargeMultiple(b - length, parts);
      Distribute(b, length, parts);
    }
  }

  lemma {:induction false} StartsOrdered(a: nat, b: nat, length: nat, parts: nat)
    requires 0 < parts <= length && a <= b
    ensures Start(a, length, parts) <= Start(b, length, parts)
    decreases b - a
  {
    hide Start;
    if a < b {
      StartsOrdered(a, b - 1, length, parts);
      StartsApart(b - 1, length, parts);
    }
  }

  lemma StartBelow(k: nat, length: nat, parts: nat)
    requires k <= parts && length > 0 && parts > 0
    ensures Start(k, length, parts) <= length && (k < parts ==> Start(k, length, parts) < length)
  {
    var s := Start(k, length, parts);
    LessProduct(length, k, parts);
    assert length * parts == parts * length && length * k == k * length;
    Cancel(s, length, parts);
    if k < parts {
      Cancel(k, parts, length);
      if parts * length <= k * length {
        Cancel(parts, k, length);
      }
    }
  }

  /** A box never leaves the side, shrinking or not. */
  lemma BoxInBounds(k: nat, length: nat, parts: nat)
    requires k < parts && length > 0
    ensures Start(k, length, parts) < End(k, length, parts) <= length
  {
    hide Start;
    StartBelow(k, length, parts);
    StartBelow(k + 1, length, parts);
  }

  ghost predicate InBox(p: nat, k: nat, length: nat, parts: nat)
    requires parts > 0
  {
    Start(k, length, parts) <= p < End(k, length, parts)
  }

  lemma {:induction false} FindBox(p: nat, n: nat, length: nat, parts: nat) returns (k: nat)
    requires 0 < parts <= length && n <= parts && p < Start(n, length, parts)
    ensures k < n && InBox(p, k, length, parts)
    decreases n
  {
    hide Start;
    Ends(length, parts);
    k := n - 1;
    BoxesMeet(k, length, parts);
    if p < Start(k, length, parts) {
      k := FindBox(p, k, length, parts);
    }
  }

  /** Each source row or column lies in exactly one box. */
  lemma ExactlyOneBox(p: nat, length: nat, parts: nat)
    requires 0 < parts <= length && p < length
    ensures exists k :: 0 <= k < parts && InBox(p, k, length, parts)
    ensures forall j, k :: 0 <= j < parts && 0 <= k < parts && InBox(p, j, length, parts) && InBox(p, k, length, parts) ==> j == k
  {
    Ends(length, parts);
    var k := FindBox(p, parts, length, parts);
    forall i, j | 0 <= i < parts && 0 <= j < parts && InBox(p, i, length, parts) && InBox(p, j, length, parts)
      ensures i == j
    {
      OneBoxOnly(p, i, j, length, parts);
      OneBoxOnly(p, j, i, length, parts);
    }
  }

  lemma OneBoxOnly(p: nat, i: nat, j: nat, length: nat, parts: nat)
    requires 0 < parts <= length && InBox(p, i, length, parts) && InBox(p, j, length, parts)
    ensures i >= j
  {
    hide Start;
    if i < j {
      BoxesMeet(i, length, parts);
      StartsOrdered(i + 1, j, length, parts);
    }
  }

  // Sums over boxes

  /** Premultiplied colour, alpha and the number of pixels. */
  datatype Sum = Sum(red: nat, green: nat, blue: nat, alpha: nat, count: nat) {
    function Plus(s: Sum): (r: Sum) {
      Sum(red + s.red, green + s.green, blue + s.blue, alpha + s.alpha, count + s.count)
    }
  }

  const ZERO := Sum(0, 0, 0, 0, 0)

  datatype Image = Image(pixels: seq<Byte>, width: nat, height: nat) {
    ghost predicate Valid() {
      |pixels| == 4 * (width * height)
    }
  }

  function Sample(im: Image, x: nat, y: nat): (s: Sum)
    requires im.Valid() && x < im.width && y < im.height
  {
    OffsetInside(im.width, im.height, x, y);
    var o := Offset(im.width, x, y);
    var alpha := im.pixels[o + 3];
    Weighted(im.pixels[o], im.pixels[o + 1], im.pixels[o + 2], alpha)
  }

  function Weighted(red: Byte, green: Byte, blue: Byte, alpha: Byte): (s: Sum)
    ensures s.red <= 255 * s.alpha && s.green <= 255 * s.alpha && s.blue <= 255 * s.alpha && s.alpha <= 255 * s.count
  {
    LessProduct(alpha, red, 255);
    LessProduct(alpha, green, 255);
    LessProduct(alpha, blue, 255);
    NonNegative(alpha, red);
    NonNegative(alpha, green);
    NonNegative(alpha, blue);
    Sum(alpha * red, alpha * green, alpha * blue, alpha, 1)
  }

  function RowSum(im: Image, y: nat, x0: nat, x1: nat): (s: Sum)
    requires im.Valid() && x0 <= x1 <= im.width && y < im.height
    ensures s.red <= 255 * s.alpha && s.green <= 255 * s.alpha && s.blue <= 255 * s.alpha && s.alpha <= 255 * s.count
    ensures s.count == x1 - x0
    decreases x1
  {
    if x0 == x1 then ZERO else RowSum(im, y, x0, x1 - 1).Plus(Sample(im, x1 - 1, y))
  }

  function BoxSum(im: Image, x0: nat, x1: nat, y0: nat, y1: nat): (s: Sum)
    requires im.Valid() && x0 <= x1 <= im.width && y0 <= y1 <= im.height
    ensures s.red <= 255 * s.alpha && s.green <= 255 * s.alpha && s.blue <= 255 * s.alpha && s.alpha <= 255 * s.count
    ensures x0 < x1 && y0 < y1 ==> s.count > 0
    decreases y1
  {
    if y0 == y1 then ZERO else BoxSum(im, x0, x1, y0, y1 - 1).Plus(RowSum(im, y1 - 1, x0, x1))
  }

  /** Averages of a sum with at least one pixel, rounded down: colour per alpha, alpha per pixel. */
  function Average(s: Sum): (p: seq<Byte>)
    requires s.count > 0 && s.alpha <= 255 * s.count
    requires s.red <= 255 * s.alpha && s.green <= 255 * s.alpha && s.blue <= 255 * s.alpha
    ensures |p| == 4
    ensures s.alpha == 0 ==> p == [0, 0, 0, 0]
  {
    SmallQuotient(s.alpha, s.count);
    if s.alpha == 0 then [0, 0, 0, 0]
    else
      SmallQuotient(s.red, s.alpha);
      SmallQuotient(s.green, s.alpha);
      SmallQuotient(s.blue, s.alpha);
      [s.red / s.alpha, s.green / s.alpha, s.blue / s.alpha, s.alpha / s.count]
  }

  /** Rounded down: each colour times the alpha, and the alpha times the pixels, fall short of the sum by less
      than one step. */
  lemma AverageIs(s: Sum)
    requires s.count > 0 && 0 < s.alpha <= 255 * s.count
    requires s.red <= 255 * s.alpha && s.green <= 255 * s.alpha && s.blue <= 255 * s.alpha
    ensures var p := Average(s);
            && 0 <= s.red - p[0] as int * s.alpha < s.alpha && 0 <= s.green - p[1] as int * s.alpha < s.alpha
            && 0 <= s.blue - p[2] as int * s.alpha < s.alpha && 0 <= s.alpha - p[3] as int * s.count < s.count
  {
    DivMod(s.red, s.alpha);
    DivMod(s.green, s.alpha);
    DivMod(s.blue, s.alpha);
    DivMod(s.alpha, s.count);
  }

  lemma SmallQuotient(a: nat, b: nat)
    requires b > 0 && a <= 255 * b
    ensures 0 <= a / b <= 255
  {
    DivMod(a, b);
    var q := a / b;
    if q > 255 {
      LargeMultiple(q - 255, b);
      Distribute(q, 255, b);
    }
  }

  /** The sum behind output pixel (x, y). */
  function OutputSum(im: Image, outWidth: nat, outHeight: nat, x: nat, y: nat): (s: Sum)
    requires im.Valid() && im.width > 0 && im.height > 0 && x < outWidth && y < outHeight
    ensures s.red <= 255 * s.alpha && s.green <= 255 * s.alpha && s.blue <= 255 * s.alpha && s.alpha <= 255 * s.count
    ensures s.count > 0
  {
    BoxInBounds(x, im.width, outWidth);
    BoxInBounds(y, im.height, outHeight);
    BoxSum(im, Start(x, im.width, outWidth), End(x, im.width, outWidth),
           Start(y, im.height, outHeight), End(y, im.height, outHeight))
  }

  // The filter

  function ScaledRow(im: Image, outWidth: nat, outHeight: nat, y: nat, n: nat): (row: seq<Byte>)
    requires im.Valid() && im.width > 0 && im.height > 0 && n <= outWidth && y < outHeight
    ensures |row| == 4 * n
  {
    if n == 0 then []
    else ScaledRow(im, outWidth, outHeight, y, n - 1) + Average(OutputSum(im, outWidth, outHeight, n - 1, y))
  }

  function ScaledRows(im: Image, outWidth: nat, outHeight: nat, n: nat): (rows: seq<Byte>)
    requires im.Valid() && im.width > 0 && im.height > 0 && n <= outHeight
    ensures |rows| == Offset(outWidth, 0, n)
  {
    if n == 0 then assert Offset(outWidth, 0, 0) == 0; []
    else
      Distribute(n, 1, outWidth);
      ScaledRows(im, outWidth, outHeight, n - 1) + ScaledRow(im, outWidth, outHeight, n - 1, outWidth)
  }

  lemma RowsStep(im: Image, outWidth: nat, outHeight: nat, n: nat)
    requires im.Valid() && im.width > 0 && im.height > 0 && 0 < n <= outHeight
    ensures ScaledRows(im, outWidth, outHeight, n)
            == ScaledRows(im, outWidth, outHeight, n - 1) + ScaledRow(im, outWidth, outHeight, n - 1, outWidth)
    ensures |ScaledRows(im, outWidth, outHeight, n - 1)| == Offset(outWidth, 0, n - 1)
  {
    hide ScaledRow, Offset;
  }

  /** Every output pixel is the average of its box. */
  lemma {:induction false} ScaledPixel(im: Image, outWidth: nat, outHeight: nat, n: nat, x: nat, y: nat)
    requires im.Valid() && im.width > 0 && im.height > 0 && n <= outHeight && x < outWidth && y < n
    ensures var o := Offset(outWidth, x, y);
            && o + 4 <= Offset(outWidth, 0, n)
            && ScaledRows(im, outWidth, outHeight, n)[o..o + 4] == Average(OutputSum(im, outWidth, outHeight, x, y))
    decreases n
  {
    hide ScaledRow, ScaledRows, Offset, OutputSum, Average;
    OffsetSteps(outWidth, x, y, n);
    RowsStep(im, outWidth, outHeight, n);
    var o := Offset(outWidth, x, y);
    var (rows, before) := (ScaledRows(im, outWidth, outHeight, n), ScaledRows(im, outWidth, outHeight, n - 1));
    if y < n - 1 {
      ScaledPixel(im, outWidth, outHeight, n - 1, x, y);
      assert rows[o..o + 4] == before[o..o + 4];
    } else {
      ScaledRowPixel(im, outWidth, outHeight, y, outWidth, x);
      assert rows[o..o + 4] == ScaledRow(im, outWidth, outHeight, y, outWidth)[4 * x..4 * x + 4];
    }
  }

  lemma {:induction false} ScaledRowPixel(im: Image, outWidth: nat, outHeight: nat, y: nat, n: nat, x: nat)
    requires im.Valid() && im.width > 0 && im.height > 0 && x < n <= outWidth && y < outHeight
    ensures ScaledRow(im, outWidth, outHeight, y, n)[4 * x..4 * x + 4] == Average(OutputSum(im, outWidth, outHeight, x, y))
    decreases n
  {
    hide OutputSum;
    var (row, before) := (ScaledRow(im, outWidth, outHeight, y, n), ScaledRow(im, outWidth, outHeight, y, n - 1));
    if x < n - 1 {
      ScaledRowPixel(im, outWidth, outHeight, y, n - 1, x);
      assert row[4 * x..4 * x + 4] == before[4 * x..4 * x + 4];
    } else {
      assert row[4 * x..4 * x + 4] == Average(OutputSum(im, outWidth, outHeight, x, y));
    }
  }

  /** The two inner loops. */
  method SumBox(im: Image, x0: nat, x1: nat, y0: nat, y1: nat) returns (s: Sum)
    requires im.Valid() && x0 <= x1 <= im.width && y0 <= y1 <= im.height
    ensures s == BoxSum(im, x0, x1, y0, y1)
  {
    hide Sample;
    s := ZERO;
    for y := y0 to y1
      invariant s == BoxSum(im, x0, x1, y0, y)
    {
      ghost var before := s;
      for x := x0 to x1
        invariant s == before.Plus(RowSum(im, y, x0, x))
      {
        PlusAssociates(before, RowSum(im, y, x0, x), Sample(im, x, y));
        s := s.Plus(Sample(im, x, y));
      }
    }
  }

  lemma PlusAssociates(a: Sum, b: Sum, c: Sum)
    ensures a.Plus(b).Plus(c) == a.Plus(b.Plus(c)) && a.Plus(ZERO) == a == ZERO.Plus(a)
  {
  }

  datatype ScaleError = OutsideImage

  /** The unchanged image, the empty one, or the box averages. Only an image without pixels fails, when a
      pixel of another size is asked of it. */
  method Downscale(im: Image, outWidth: nat, outHeight: nat) returns (r: Result<seq<Byte>, ScaleError>)
    requires im.Valid()
    ensures r == if outWidth == im.width && outHeight == im.height then Ok(im.pixels)
                 else if outWidth == 0 || outHeight == 0 then Ok([])
                 else if im.width == 0 || im.height == 0 then Err(OutsideImage)
                 else Ok(ScaledRows(im, outWidth, outHeight, outHeight))
  {
    hide BoxSum, Average, Start, End, Offset;
    if outWidth == im.width && outHeight == im.height {
      return Ok(im.pixels);
    }
    if outWidth == 0 || outHeight == 0 {
      return Ok([]);
    }
    if im.width == 0 || im.height == 0 {
      NoFirstPixel(im, outWidth, outHeight);
      return Err(OutsideImage);
    }
    var out := [];
    for y := 0 to outHeight
      invariant out == ScaledRows(im, outWidth, outHeight, y)
    {
      BoxInBounds(y, im.height, outHeight);
      ghost var before := out;
      for x := 0 to outWidth
        invariant out == before + ScaledRow(im, outWidth, outHeight, y, x)
      {
        BoxInBounds(x, im.width, outWidth);
        var s := SumBox(im, Start(x, im.width, outWidth), End(x, im.width, outWidth),
                        Start(y, im.height, outHeight), End(y, im.height, outHeight));
        out := out + Average(s);
        assert before + (ScaledRow(im, outWidth, outHeight, y, x) + Average(s)) ==
               before + ScaledRow(im, outWidth, outHeight, y, x) + Average(s);
      }
    }
    r := Ok(out);
  }

  /** The first box starts at the first pixel, and an image without pixels has none. */
  lemma NoFirstPixel(im: Image, outWidth: nat, outHeight: nat)
    requires im.Valid() && (im.width == 0 || im.height == 0) && outWidth > 0 && outHeight > 0
    ensures Start(0, im.width, outWidth) == 0 < End(0, im.width, outWidth)
    ensures Start(0, im.height, outHeight) == 0 < End(0, im.height, outHeight)
    ensures im.pixels == []
  {
    NonNegative(Start(0, im.width, outWidth), outWidth);
    NonNegative(Start(0, im.height, outHeight), outHeight);
  }

  // Conservation

  lemma PlusExchange(a: Sum, b: Sum, c: Sum, d: Sum)
    ensures a.Plus(b).Plus(c.Plus(d)) == a.Plus(c).Plus(b.Plus(d))
  {
  }

  lemma {:induction false} RowSplits(im: Image, y: nat, x0: nat, x1: nat, x2: nat)
    requires im.Valid() && x0 <= x1 <= x2 <= im.width && y < im.height
    ensures RowSum(im, y, x0, x2) == RowSum(im, y, x0, x1).Plus(RowSum(im, y, x1, x2))
    decreases x2
  {
    hide Sample, Sum.Plus;
    var first := RowSum(im, y, x0, x1);
    if x1 < x2 {
      RowSplits(im, y, x0, x1, x2 - 1);
      PlusAssociates(first, RowSum(im, y, x1, x2 - 1), Sample(im, x2 - 1, y));
    } else {
      PlusAssociates(first, ZERO, ZERO);
    }
  }

  lemma {:induction false} BoxSplitsAcross(im: Image, x0: nat, x1: nat, x2: nat, y0: nat, y1: nat)
    requires im.Valid() && x0 <= x1 <= x2 <= im.width && y0 <= y1 <= im.height
    ensures BoxSum(im, x0, x2, y0, y1) == BoxSum(im, x0, x1, y0, y1).Plus(BoxSum(im, x1, x2, y0, y1))
    decreases y1
  {
    hide RowSum, Sum.Plus;
    if y0 < y1 {
      BoxSplitsAcross(im, x0, x1, x2, y0, y1 - 1);
      RowSplits(im, y1 - 1, x0, x1, x2);
      PlusExchange(BoxSum(im, x0, x1, y0, y1 - 1), BoxSum(im, x1, x2, y0, y1 - 1),
                   RowSum(im, y1 - 1, x0, x1), RowSum(im, y1 - 1, x1, x2));
    } else {
      PlusAssociates(ZERO, ZERO, ZERO);
    }
  }

  lemma {:induction false} BoxSplitsDown(im: Image, x0: nat, x1: nat, y0: nat, y1: nat, y2: nat)
    requires im.Valid() && x0 <= x1 <= im.width && y0 <= y1 <= y2 <= im.height
    ensures BoxSum(im, x0, x1, y0, y2) == BoxSum(im, x0, x1, y0, y1).Plus(BoxSum(im, x0, x1, y1, y2))
    decreases y2
  {
    hide RowSum, Sum.Plus;
    var first := BoxSum(im, x0, x1, y0, y1);
    if y1 < y2 {
      BoxSplitsDown(im, x0, x1, y0, y1, y2 - 1);
      PlusAssociates(first, BoxSum(im, x0, x1, y1, y2 - 1), RowSum(im, y2 - 1, x0, x1));
    } else {
      PlusAssociates(first, ZERO, ZERO);
    }
  }

  /** The sums of the first `n` output pixels of a row. */
  function OutputRow(im: Image, outWidth: nat, outHeight: nat, y: nat, n: nat): (s: Sum)
    requires im.Valid() && im.width > 0 && im.height > 0 && n <= outWidth && y < outHeight
  {
    if n == 0 then ZERO
    else OutputRow(im, outWidth, outHeight, y, n - 1).Plus(OutputSum(im, outWidth, outHeight, n - 1, y))
  }

  function OutputRows(im: Image, outWidth: nat, outHeight: nat, n: nat): (s: Sum)
    requires im.Valid() && im.width > 0 && im.height > 0 && n <= outHeight
  {
    if n == 0 then ZERO
    else OutputRows(im, outWidth, outHeight, n - 1).Plus(OutputRow(im, outWidth, outHeight, n - 1, outWidth))
  }

  lemma StartInside(k: nat, length: nat, parts: nat)
    requires 0 < parts <= length && k <= parts
    ensures Start(k, length, parts) <= length
  {
    hide Start;
    StartsOrdered(k, parts, length, parts);
    Ends(length, parts);
  }

  lemma {:induction false} RowConserved(im: Image, outWidth: nat, outHeight: nat, y: nat, n: nat)
    requires im.Valid() && 0 < outWidth <= im.width && 0 < outHeight <= im.height && n <= outWidth && y < outHeight
    ensures Start(y, im.height, outHeight) <= Start(y + 1, im.height, outHeight) <= im.height
    ensures Start(n, im.width, outWidth) <= im.width
    ensures OutputRow(im, outWidth, outHeight, y, n) ==
            BoxSum(im, 0, Start(n, im.width, outWidth), Start(y, im.height, outHeight), Start(y + 1, im.height, outHeight))
    decreases n
  {
    hide Start, BoxSum, Sum.Plus;
    var (y0, y1) := (Start(y, im.height, outHeight), Start(y + 1, im.height, outHeight));
    StartsApart(y, im.height, outHeight);
    StartInside(y + 1, im.height, outHeight);
    StartInside(n, im.width, outWidth);
    Ends(im.width, outWidth);
    if n == 0 {
      EmptyBox(im, y0, y1);
    } else {
      RowConserved(im, outWidth, outHeight, y, n - 1);
      BoxesMeet(n - 1, im.width, outWidth);
      BoxesMeet(y, im.height, outHeight);
      StartsApart(n - 1, im.width, outWidth);
      BoxSplitsAcross(im, 0, Start(n - 1, im.width, outWidth), Start(n, im.width, outWidth), y0, y1);
    }
  }

  lemma {:induction false} EmptyBox(im: Image, y0: nat, y1: nat)
    requires im.Valid() && y0 <= y1 <= im.height
    ensures BoxSum(im, 0, 0, y0, y1) == ZERO
    decreases y1
  {
    hide Sum.Plus, Sample;
    if y0 < y1 {
      EmptyBox(im, y0, y1 - 1);
      PlusAssociates(ZERO, ZERO, ZERO);
    }
  }

  lemma {:induction false} RowsConserved(im: Image, outWidth: nat, outHeight: nat, n: nat)
    requires im.Valid() && 0 < outWidth <= im.width && 0 < outHeight <= im.height && n <= outHeight
    ensures Start(n, im.height, outHeight) <= im.height
    ensures OutputRows(im, outWidth, outHeight, n) == BoxSum(im, 0, im.width, 0, Start(n, im.height, outHeight))
    decreases n
  {
    hide Start, OutputRow, Sum.Plus;
    StartInside(n, im.height, outHeight);
    Ends(im.height, outHeight);
    Ends(im.width, outWidth);
    if n > 0 {
      RowsConserved(im, outWidth, outHeight, n - 1);
      RowConserved(im, outWidth, outHeight, n - 1, outWidth);
      BoxSplitsDown(im, 0, im.width, 0, Start(n - 1, im.height, outHeight), Start(n, im.height, outHeight));
    }
  }

  /** Shrinking loses and repeats nothing: over all output pixels, the summed colour, alpha and pixel counts are
      those of the whole source. */
  lemma Conserved(im: Image, outWidth: nat, outHeight: nat)
    requires im.Valid() && 0 < outWidth <= im.width && 0 < outHeight <= im.height
    ensures OutputRows(im, outWidth, outHeight, outHeight) == BoxSum(im, 0, im.width, 0, im.height)
  {
    hide Start, OutputRows;
    RowsConserved(im, outWidth, outHeight, outHeight);
    Ends(im.height, outHeight);
  }

  /** For the sizes the tool chooses, of any image with pixels, the boxes tile the source. */
  lemma FittedConserves(im: Image, maximum: int)
    requires im.Valid() && im.width > 0 && im.height > 0 && maximum > 0
    ensures var (w, h) := FitWithin(im.width, im.height, maximum).value;
            OutputRows(im, w, h, h) == BoxSum(im, 0, im.width, 0, im.height)
  {
    hide OutputRows, BoxSum, Proportion;
    var (w, h) := FitWithin(im.width, im.height, maximum).value;
    NeverEnlargesIff(im.width, im.height, maximum);
    FitFits(im.width, im.height, maximum);
    Conserved(im, w, h);
  }

  // Even colour stays as it is

  /** A sum of pixels that all have colour (red, green, blue) and this alpha. */
  ghost predicate Even(s: Sum, red: Byte, green: Byte, blue: Byte, alpha: Byte) {
    s.red == red * s.alpha && s.green == green * s.alpha && s.blue == blue * s.alpha && s.alpha == alpha * s.count
  }

  lemma EvenPlus(s: Sum, t: Sum, red: Byte, green: Byte, blue: Byte, alpha: Byte)
    requires Even(s, red, green, blue, alpha) && Even(t, red, green, blue, alpha)
    ensures Even(s.Plus(t), red, green, blue, alpha)
  {
    assert red * (s.alpha + t.alpha) == red * s.alpha + red * t.alpha;
    assert green * (s.alpha + t.alpha) == green * s.alpha + green * t.alpha;
    assert blue * (s.alpha + t.alpha) == blue * s.alpha + blue * t.alpha;
    assert alpha * (s.count + t.count) == alpha * s.count + alpha * t.count;
  }

  ghost predicate Painted(im: Image, x0: nat, x1: nat, y0: nat, y1: nat, p: seq<Byte>)
    requires im.Valid() && x1 <= im.width && y1 <= im.height && |p| == 4
  {
    forall x: nat, y: nat :: x0 <= x < x1 && y0 <= y < y1 ==> PixelOf(im, x, y) == p
  }

  function PixelOf(im: Image, x: nat, y: nat): (p: seq<Byte>)
    requires im.Valid() && x < im.width && y < im.height
    ensures |p| == 4
  {
    OffsetInside(im.width, im.height, x, y);
    im.pixels[Offset(im.width, x, y)..Offset(im.width, x, y) + 4]
  }

  lemma SampleOf(im: Image, x: nat, y: nat)
    requires im.Valid() && x < im.width && y < im.height
    ensures var p := PixelOf(im, x, y); Sample(im, x, y) == Weighted(p[0], p[1], p[2], p[3])
  {
    hide Offset;
    OffsetInside(im.width, im.height, x, y);
  }

  lemma EvenZero(red: Byte, green: Byte, blue: Byte, alpha: Byte)
    ensures Even(ZERO, red, green, blue, alpha)
  {
  }

  lemma EvenSample(p: seq<Byte>)
    requires |p| == 4
    ensures Even(Weighted(p[0], p[1], p[2], p[3]), p[0], p[1], p[2], p[3])
  {
  }

  lemma {:induction false} EvenRow(im: Image, y: nat, x0: nat, x1: nat, p: seq<Byte>)
    requires im.Valid() && x0 <= x1 <= im.width && y < im.height && |p| == 4 && Painted(im, x0, x1, y, y + 1, p)
    ensures Even(RowSum(im, y, x0, x1), p[0], p[1], p[2], p[3])
    decreases x1
  {
    hide Sample, Weighted, Even, Sum.Plus, PixelOf;
    if x0 == x1 {
      EvenZero(p[0], p[1], p[2], p[3]);
    } else {
      EvenRow(im, y, x0, x1 - 1, p);
      SampleOf(im, x1 - 1, y);
      assert PixelOf(im, x1 - 1, y) == p;
      EvenSample(p);
      EvenPlus(RowSum(im, y, x0, x1 - 1), Sample(im, x1 - 1, y), p[0], p[1], p[2], p[3]);
    }
  }

  lemma {:induction false} EvenBox(im: Image, x0: nat, x1: nat, y0: nat, y1: nat, p: seq<Byte>)
    requires im.Valid() && x0 <= x1 <= im.width && y0 <= y1 <= im.height && |p| == 4 && Painted(im, x0, x1, y0, y1, p)
    ensures Even(BoxSum(im, x0, x1, y0, y1), p[0], p[1], p[2], p[3])
    decreases y1
  {
    hide Weighted, Even, RowSum, Sum.Plus, PixelOf;
    if y0 == y1 {
      EvenZero(p[0], p[1], p[2], p[3]);
    } else {
      EvenBox(im, x0, x1, y0, y1 - 1, p);
      EvenRow(im, y1 - 1, x0, x1, p);
      EvenPlus(BoxSum(im, x0, x1, y0, y1 - 1), RowSum(im, y1 - 1, x0, x1), p[0], p[1], p[2], p[3]);
    }
  }

  /** A box whose pixels are all alike averages to that pixel, or to transparent black when its alpha is zero. */
  lemma EvenAverages(im: Image, x0: nat, x1: nat, y0: nat, y1: nat, p: seq<Byte>)
    requires im.Valid() && x0 < x1 <= im.width && y0 < y1 <= im.height && |p| == 4 && Painted(im, x0, x1, y0, y1, p)
    ensures Average(BoxSum(im, x0, x1, y0, y1)) == if p[3] == 0 then [0, 0, 0, 0] else p
  {
    hide BoxSum, Painted;
    EvenBox(im, x0, x1, y0, y1, p);
    var s := BoxSum(im, x0, x1, y0, y1);
    QuotientIs(s.count, p[3], 0);
    if p[3] == 0 {
      assert s.alpha == 0;
    } else {
      LessProduct(s.count, 1, p[3]);
      QuotientIs(s.alpha, p[0], 0);
      QuotientIs(s.alpha, p[1], 0);
      QuotientIs(s.alpha, p[2], 0);
    }
  }
}
