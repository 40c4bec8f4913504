// The logo's run-length encoding (encode in tools/make-logo-asset.py).

module RunLength {
  import opened Bytes

  type Pixel = seq<Byte>

  const MAX_RUN := 255

  datatype Run = Run(pixel: Pixel, count: nat)

  // The pixels of a byte buffer

  function PixelAt(pixels: seq<Byte>, i: nat): (p: Pixel)
    requires 4 * i + 4 <= |pixels|
    ensures |p| == 4
  {
    pixels[4 * i..4 * i + 4]
  }

  function PixelsOf(pixels: seq<Byte>, total: nat): (ps: seq<Pixel>)
    requires 4 * total <= |pixels|
    ensures |ps| == total && forall i :: 0 <= i < total ==> |ps[i]| == 4
  {
    seq(total, i requires 0 <= i < total => PixelAt(pixels, i))
  }

  // Runs

  function Repeat(p: Pixel, n: nat): (ps: seq<Pixel>)
    ensures |ps| == n && forall i :: 0 <= i < n ==> ps[i] == p
  {
    seq(n, _ => p)
  }

  function Expand(runs: seq<Run>): (ps: seq<Pixel>) {
    if runs == [] then []
    else Expand(runs[..|runs| - 1]) + Repeat(runs[|runs| - 1].pixel, runs[|runs| - 1].count)
  }

  /** A pixel joins the last run while it matches and the run is not full. */
  function Join(runs: seq<Run>, p: Pixel): (r: seq<Run>)
    ensures r != [] && r[|r| - 1].pixel == p
  {
    if runs != [] && runs[|runs| - 1].pixel == p && runs[|runs| - 1].count < MAX_RUN then
      runs[..|runs| - 1] + [Run(p, runs[|runs| - 1].count + 1)]
    else runs + [Run(p, 1)]
  }

  /** The runs the encoder makes. */
  function Runs(ps: seq<Pixel>): (runs: seq<Run>)
    ensures ps != [] ==> runs != [] && runs[|runs| - 1].pixel == ps[|ps| - 1]
    ensures ps == [] ==> runs == []
  {
    if ps == [] then [] else Join(Runs(ps[..|ps| - 1]), ps[|ps| - 1])
  }

  ghost predicate Bounded(runs: seq<Run>) {
    forall k :: 0 <= k < |runs| ==> 1 <= runs[k].count <= 255
  }

  lemma ExpandLast(runs: seq<Run>, p: Pixel, count: nat)
    ensures Expand(runs + [Run(p, count)]) == Expand(runs) + Repeat(p, count)
    ensures Expand(runs + [Run(p, count + 1)]) == Expand(runs + [Run(p, count)]) + [p]
  {
    assert (runs + [Run(p, count)])[..|runs|] == runs && (runs + [Run(p, count + 1)])[..|runs|] == runs;
    assert Repeat(p, count + 1) == Repeat(p, count) + [p];
  }

  lemma JoinExpands(runs: seq<Run>, p: Pixel)
    requires Bounded(runs)
    ensures Expand(Join(runs, p)) == Expand(runs) + [p] && Bounded(Join(runs, p))
  {
    hide Expand;
    ExpandLast(runs, p, 0);
    NoneRepeated(p);
    assert Expand(runs) + [] == Expand(runs);
    if runs != [] {
      var k := |runs| - 1;
      assert runs == runs[..k] + [runs[k]];
      ExpandLast(runs[..k], runs[k].pixel, runs[k].count);
    }
  }

  lemma NoneRepeated(p: Pixel)
    ensures Repeat(p, 0) == []
  {
  }

  /** Expanding the runs gives the pixels back, and every run has 1 to 255 pixels. */
  lemma {:induction false} RunsExpand(ps: seq<Pixel>)
    ensures Expand(Runs(ps)) == ps && Bounded(Runs(ps))
    decreases |ps|
  {
    hide Join;
    if ps != [] {
      var n := |ps| - 1;
      RunsExpand(ps[..n]);
      JoinExpands(Runs(ps[..n]), ps[n]);
      assert ps == ps[..n] + [ps[n]];
    }
  }

  /** Fewer runs, or as many with no more in the last one. */
  ghost predicate NoLonger(a: seq<Run>, b: seq<Run>) {
    |a| < |b| || (|a| == |b| && (a != [] ==> a[|a| - 1].count <= b[|b| - 1].count))
  }

  lemma NothingExpands()
    ensures Expand([]) == []
  {
  }

  /** No encoding with runs of at most 255 uses fewer runs. */
  lemma {:induction false} Minimal(ps: seq<Pixel>, runs: seq<Run>)
    requires Expand(runs) == ps
    requires forall k :: 0 <= k < |runs| ==> runs[k].count <= MAX_RUN
    ensures |Runs(ps)| <= |runs|
    ensures runs != [] && runs[|runs| - 1].count > 0 ==> NoLonger(Runs(ps), runs)
    decreases |ps| + |runs|
  {
    hide Expand, Join, Runs;
    if runs == [] {
      NothingExpands();
    } else {
      var (shorter, last) := (runs[..|runs| - 1], runs[|runs| - 1]);
      assert runs == shorter + [last];
      if last.count == 0 {
        ZeroRun(shorter, last.pixel);
        Minimal(ps, shorter);
      } else {
        var n := |ps| - 1;
        CutLast(ps, shorter, last);
        if last.count == 1 {
          Minimal(ps[..n], shorter);
        } else {
          Minimal(ps[..n], shorter + [Run(last.pixel, last.count - 1)]);
        }
        LastJoined(ps);
      }
    }
  }

  lemma ZeroRun(shorter: seq<Run>, p: Pixel)
    ensures Expand(shorter + [Run(p, 0)]) == Expand(shorter)
  {
    ExpandLast(shorter, p, 0);
    NoneRepeated(p);
  }

  /** Taking the last pixel off an encoding. */
  lemma CutLast(ps: seq<Pixel>, shorter: seq<Run>, last: Run)
    requires Expand(shorter + [last]) == ps && last.count > 0
    ensures ps != [] && ps[|ps| - 1] == last.pixel
    ensures Expand(shorter + [Run(last.pixel, last.count - 1)]) == ps[..|ps| - 1]
    ensures last.count == 1 ==> Expand(shorter) == ps[..|ps| - 1]
    ensures last.count > 1 ==> |ps| > 1 && ps[|ps| - 2] == last.pixel
  {
    hide Expand;
    ExpandLast(shorter, last.pixel, last.count - 1);
    if last.count == 1 {
      ZeroRun(shorter, last.pixel);
    } else {
      ExpandLast(shorter, last.pixel, last.count - 2);
    }
  }

  lemma LastJoined(ps: seq<Pixel>)
    requires ps != []
    ensures var n := |ps| - 1;
            var (before, after) := (Runs(ps[..n]), Runs(ps));
            && after != []
            && if n > 0 && before[|before| - 1].pixel == ps[n] && before[|before| - 1].count < MAX_RUN
               then |after| == |before| && after[|after| - 1].count == before[|before| - 1].count + 1
               else |after| == |before| + 1 && after[|after| - 1].count == 1
  {
    hide Join;
    JoinSize(Runs(ps[..|ps| - 1]), ps[|ps| - 1]);
  }

  lemma JoinSize(runs: seq<Run>, p: Pixel)
    ensures var r := Join(runs, p);
            if runs != [] && runs[|runs| - 1].pixel == p && runs[|runs| - 1].count < MAX_RUN
            then |r| == |runs| && r[|r| - 1].count == runs[|runs| - 1].count + 1
            else |r| == |runs| + 1 && r[|r| - 1].count == 1
  {
  }

  // Bytes

  function Serialize(runs: seq<Run>): (body: seq<Byte>)
    requires Bounded(runs)
  {
    if runs == [] then []
    else
      var last := runs[|runs| - 1];
      Serialize(runs[..|runs| - 1]) + ([last.count] + last.pixel)
  }

  /** The reader of the format: one length byte and four pixel bytes a run. */
  function Decode(body: seq<Byte>): (runs: seq<Run>) {
    if |body| < 5 then []
    else Decode(body[..|body| - 5]) + [Run(body[|body| - 4..], body[|body| - 5])]
  }

  lemma DecodeAdds(body: seq<Byte>, r: Run)
    requires |r.pixel| == 4 && r.count <= MAX_RUN
    ensures Decode(body + ([r.count] + r.pixel)) == Decode(body) + [r]
  {
    var longer := body + ([r.count] + r.pixel);
    assert longer[..|longer| - 5] == body && longer[|longer| - 4..] == r.pixel;
  }

  lemma {:induction false} SerializeDecodes(runs: seq<Run>)
    requires Bounded(runs) && forall k :: 0 <= k < |runs| ==> |runs[k].pixel| == 4
    ensures |Serialize(runs)| == 5 * |runs| && Decode(Serialize(runs)) == runs
    decreases |runs|
  {
    hide Decode;
    if runs == [] {
      NothingDecodes();
    } else {
      var k := |runs| - 1;
      SerializeDecodes(runs[..k]);
      DecodeAdds(Serialize(runs[..k]), runs[k]);
      assert runs == runs[..k] + [runs[k]];
    }
  }

  lemma NothingDecodes()
    ensures Decode([]) == []
  {
  }

  lemma {:induction false} RunsOfPixels(ps: seq<Pixel>)
    requires forall i :: 0 <= i < |ps| ==> |ps[i]| == 4
    ensures forall k :: 0 <= k < |Runs(ps)| ==> |Runs(ps)[k].pixel| == 4
    decreases |ps|
  {
    if ps != [] {
      RunsOfPixels(ps[..|ps| - 1]);
    }
  }

  lemma SerializeOpen(closed: seq<Run>, open: seq<Run>)
    requires |open| <= 1 && Bounded(closed + open)
    ensures Bounded(closed) && (open != [] ==> 1 <= open[0].count <= MAX_RUN)
    ensures Serialize(closed + open) == Serialize(closed) + if open == [] then [] else [open[0].count] + open[0].pixel
  {
    var all := closed + open;
    assert forall k :: 0 <= k < |closed| ==> closed[k] == all[k];
    if open != [] {
      assert all[..|closed|] == closed && all[|closed|] == open[0];
    } else {
      assert all == closed;
    }
  }

  /** The encoder's loop: finished runs are already in the body, the open one is kept aside. */
  method EncodeRuns(pixels: seq<Byte>, total: nat) returns (body: seq<Byte>)
    requires 4 * total <= |pixels|
    ensures var runs := Runs(PixelsOf(pixels, total)); Bounded(runs) && body == Serialize(runs)
  {
    hide Serialize, Expand, Join, Runs, PixelsOf, Bounded;
    ghost var ps := PixelsOf(pixels, total);
    body := [];
    var open: seq<Run> := [];
    ghost var closed: seq<Run> := [];
    StartEncoding(ps);
    for index := 0 to total
      invariant |open| <= 1 && (open == [] ==> closed == [])
      invariant Runs(ps[..index]) == closed + open && Bounded(closed + open) && Bounded(closed)
      invariant body == Serialize(closed)
    {
      var pixel := PixelAt(pixels, index);
      PixelOf(pixels, total, index);
      NextPixel(ps, index, closed, open);
      SerializeOpen(closed, open);
      if open != [] && open[0].pixel == pixel && open[0].count < MAX_RUN {
        open := [Run(pixel, open[0].count + 1)];
      } else {
        if open != [] {
          body := body + ([open[0].count] + open[0].pixel);
        }
        closed := closed + open;
        open := [Run(pixel, 1)];
      }
    }
    assert ps[..total] == ps;
    SerializeOpen(closed, open);
    if open != [] {
      body := body + ([open[0].count] + open[0].pixel);
    }
  }

  lemma PixelOf(pixels: seq<Byte>, total: nat, i: nat)
    requires 4 * total <= |pixels| && i < total
    ensures PixelsOf(pixels, total)[i] == PixelAt(pixels, i)
  {
  }

  lemma StartEncoding(ps: seq<Pixel>)
    ensures Runs(ps[..0]) == [] + [] && Bounded([]) && Serialize([]) == []
  {
  }

  lemma NextPixel(ps: seq<Pixel>, index: nat, closed: seq<Run>, open: seq<Run>)
    requires index < |ps| && |open| <= 1 && (open == [] ==> closed == [])
    requires Runs(ps[..index]) == closed + open && Bounded(closed + open)
    ensures var joined := open != [] && open[0].pixel == ps[index] && open[0].count < MAX_RUN;
            var runs := if joined then closed + [Run(ps[index], open[0].count + 1)] else closed + open + [Run(ps[index], 1)];
            Runs(ps[..index + 1]) == runs && Bounded(runs)
  {
    hide Join, Bounded;
    assert ps[..index + 1][..index] == ps[..index];
    JoinOpen(closed, open, ps[index]);
    JoinExpands(closed + open, ps[index]);
  }

  /** The body decodes to the fewest runs and those expand to the pixels. */
  method Encode(pixels: seq<Byte>, width: nat, height: nat) returns (body: seq<Byte>)
    requires 4 * (width * height) <= |pixels|
    ensures var ps := PixelsOf(pixels, width * height);
            && Expand(Decode(body)) == ps
            && Decode(body) == Runs(ps) && |body| == 5 * |Runs(ps)|
  {
    hide Serialize, Decode, Expand, Runs, PixelsOf;
    var total := width * height;
    body := EncodeRuns(pixels, total);
    ghost var ps := PixelsOf(pixels, total);
    RunsOfPixels(ps);
    SerializeDecodes(Runs(ps));
    RunsExpand(ps);
  }

  /** One more pixel, with the open run kept apart. */
  lemma JoinOpen(closed: seq<Run>, open: seq<Run>, p: Pixel)
    requires |open| <= 1 && (open == [] ==> closed == [])
    ensures Join(closed + open, p) ==
            if open != [] && open[0].pixel == p && open[0].count < MAX_RUN
            then closed + [Run(p, open[0].count + 1)]
            else closed + open + [Run(p, 1)]
  {
    if open != [] {
      assert (closed + open)[..|closed|] == closed;
    }
  }
}
