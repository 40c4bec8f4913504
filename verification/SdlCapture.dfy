// Acceptance of a captured SDL waveform (expected_sdl, nonzero_runs and verify_sdl in
// tools/audio-wav-host-test.py).

module SdlCapture {
  import opened Bytes

  const SDL_FRAMES := 4096
  const CHUNK_FRAMES := 1024
  const CHUNKS := 4
  const REQUIRED := 8
  const MIN_FRAMES := 256
  const SILENCE: seq<Byte> := [0, 0, 0, 0]

  type Frame = seq<Byte>

  datatype SdlError = NotSdl | OrderOrCoverage | MovedBackward | Incomplete | Silent

  // The fixture's frames

  function Sample(f: nat): (s: nat)
    ensures 1000 <= s < 13000
  {
    1000 + f * 73 % 12000
  }

  /** A sample and its negation, little-endian. */
  function FrameOf(f: nat): (frame: Frame)
    ensures |frame| == 4 && U16(frame, 0) == Sample(f) && U16(frame, 2) == 0x1_0000 - Sample(f)
  {
    Le16(Sample(f)) + Le16(0x1_0000 - Sample(f))
  }

  /** The ramp the frames carry: it starts at 1000, climbs by 73 a frame and falls back by 11927 instead whenever
      climbing would reach 13000. */
  lemma SampleRamp(f: nat)
    ensures Sample(0) == 1000
    ensures Sample(f + 1) == (if Sample(f) + 73 < 13000 then Sample(f) + 73 else Sample(f) - 11927)
  {
    var (q, r) := (f * 73 / 12000, f * 73 % 12000);
    assert (f + 1) * 73 == 12000 * q + r + 73;
    if r + 73 < 12000 {
      RemainderIs((f + 1) * 73, q, r + 73);
    } else {
      RemainderIs((f + 1) * 73, q + 1, r + 73 - 12000);
    }
  }

  lemma RemainderIs(n: nat, q: nat, r: nat)
    requires n == 12000 * q + r && r < 12000
    ensures n % 12000 == r
  {
  }

  /** 73 is invertible modulo 12000, so no two of the 4096 frames are alike. */
  lemma FramesUnique(f: nat, g: nat)
    requires f < SDL_FRAMES && g < SDL_FRAMES && FrameOf(f) == FrameOf(g)
    ensures f == g
  {
    assert Sample(f) == Sample(g);
    var (p, q) := (f * 73 / 12000, g * 73 / 12000);
    Invertible(f - g, p - q);
  }

  /** 73 * 2137 is one more than 13 * 12000. */
  lemma Invertible(d: int, k: int)
    requires 73 * d == 12000 * k && -12000 < d < 12000
    ensures d == 0
  {
    assert d == 12000 * (2137 * k - 13 * d);
  }

  lemma FrameSounds(f: nat)
    ensures FrameOf(f) != SILENCE && U16(FrameOf(f), 0) != 0 && U16(FrameOf(f), 2) != 0
  {
  }

  /** The position a captured frame came from. */
  ghost predicate ComesFrom(frame: Frame, f: nat) {
    f < 4096 && frame == FrameOf(f)
  }

  // Captures

  function FrameAt(payload: seq<Byte>, i: nat): (frame: Frame)
    requires 4 * i + 4 <= |payload|
    ensures |frame| == 4
  {
    payload[4 * i..4 * i + 4]
  }

  /** `heard` lists, in order, where the non-silent frames among the first `n` came from. */
  ghost predicate Hears(payload: seq<Byte>, n: nat, heard: seq<nat>)
    requires 4 * n <= |payload|
    decreases n
  {
    if n == 0 then heard == []
    else if FrameAt(payload, n - 1) == SILENCE then Hears(payload, n - 1, heard)
    else
      && heard != [] && ComesFrom(FrameAt(payload, n - 1), heard[|heard| - 1])
      && Hears(payload, n - 1, heard[..|heard| - 1])
  }

  lemma {:induction false} HearsUnique(payload: seq<Byte>, n: nat, a: seq<nat>, b: seq<nat>)
    requires 4 * n <= |payload| && Hears(payload, n, a) && Hears(payload, n, b)
    ensures a == b
    decreases n
  {
    hide FrameOf;
    if n > 0 {
      if FrameAt(payload, n - 1) == SILENCE {
        HearsUnique(payload, n - 1, a, b);
      } else {
        FramesUnique(a[|a| - 1], b[|b| - 1]);
        HearsUnique(payload, n - 1, a[..|a| - 1], b[..|b| - 1]);
        assert a == a[..|a| - 1] + [a[|a| - 1]] && b == b[..|b| - 1] + [b[|b| - 1]];
      }
    }
  }

  // The declared meaning

  /** Frames `lo` to `hi` are group `k`: at least 256 frames of chunk k mod 4, strictly increasing. */
  ghost predicate Group(heard: seq<nat>, lo: nat, hi: nat, k: nat) {
    && lo + 256 <= hi <= |heard|
    && Part(heard, lo, hi, k)
  }

  /** Some frames of group `k`. */
  ghost predicate Part(heard: seq<nat>, lo: nat, hi: nat, k: nat) {
    && lo <= hi <= |heard|
    && (forall i :: lo <= i < hi ==> heard[i] / 1024 == k % 4)
    && (forall i, j :: lo <= i < j < hi ==> heard[i] < heard[j])
  }

  /** The eight consecutive groups, given where each one starts. */
  ghost predicate Segmented(heard: seq<nat>, cuts: seq<nat>) {
    && |cuts| == 9 && cuts[0] == 0 && cuts[8] == |heard|
    && forall k :: 0 <= k < 8 ==> Group(heard, cuts[k], cuts[k + 1], k)
  }

  ghost predicate Acceptable(payload: seq<Byte>)
    requires |payload| % 4 == 0
  {
    exists heard, cuts :: Hears(payload, |payload| / 4, heard) && Segmented(heard, cuts)
  }

  // The state machine

  /** `last` is -1 before the first frame of a segment. */
  datatype State = State(segment: nat, counts: seq<nat>, last: int, audio: nat)

  const START := State(0, [0, 0, 0, 0, 0, 0, 0, 0], -1, 0)

  function Step(st: State, f: nat): (r: Result<State, SdlError>)
    requires |st.counts| == REQUIRED && st.segment < REQUIRED
    ensures r.Ok? ==> |r.value.counts| == REQUIRED && r.value.segment < REQUIRED
  {
    var chunk := f / CHUNK_FRAMES;
    if chunk != st.segment % CHUNKS then
      if st.segment + 1 < REQUIRED && chunk == (st.segment + 1) % CHUNKS && st.counts[st.segment] >= MIN_FRAMES then
        var k := st.segment + 1;
        Ok(State(k, st.counts[k := st.counts[k] + 1], f, st.audio + 1))
      else Err(OrderOrCoverage)
    else if st.last >= 0 && f <= st.last then Err(MovedBackward)
    else Ok(State(st.segment, st.counts[st.segment := st.counts[st.segment] + 1], f, st.audio + 1))
  }

  /** What the machine's variables mean after `n` frames: finished groups, an open part, and nothing counted
      beyond it. */
  ghost predicate Tracks(heard: seq<nat>, n: nat, cuts: seq<nat>, st: State) {
    && n <= |heard| && |st.counts| == REQUIRED && st.segment < REQUIRED && |cuts| == st.segment + 1 && cuts[0] == 0
    && (forall k :: 0 <= k < st.segment ==> Group(heard, cuts[k], cuts[k + 1], k) && st.counts[k] == cuts[k + 1] - cuts[k])
    && Part(heard, cuts[st.segment], n, st.segment) && st.counts[st.segment] == n - cuts[st.segment]
    && (st.last == if n == cuts[st.segment] then -1 else heard[n - 1])
    && (n == cuts[st.segment] ==> st.segment == 0)
    && (forall k :: st.segment < k < REQUIRED ==> st.counts[k] == 0)
    && st.audio == n
  }

  lemma StartTracks(heard: seq<nat>)
    ensures Tracks(heard, 0, [0], START)
  {
  }

  lemma StepTracks(heard: seq<nat>, n: nat, cuts: seq<nat>, st: State)
    requires Tracks(heard, n, cuts, st) && n < |heard| && Step(st, heard[n]).Ok?
    ensures var next := Step(st, heard[n]).value;
            Tracks(heard, n + 1, if next.segment == st.segment then cuts else cuts + [n], next)
  {
    var next := Step(st, heard[n]).value;
    if next.segment == st.segment {
      PartGrows(heard, cuts[st.segment], n, st.segment);
    } else {
      OpensGroup(heard, n, cuts, st);
    }
  }

  lemma OpensGroup(heard: seq<nat>, n: nat, cuts: seq<nat>, st: State)
    requires Tracks(heard, n, cuts, st) && n < |heard| && Step(st, heard[n]).Ok?
    requires Step(st, heard[n]).value.segment != st.segment
    ensures Tracks(heard, n + 1, cuts + [n], Step(st, heard[n]).value)
  {
    hide Part;
    var k, more, next := st.segment, cuts + [n], Step(st, heard[n]).value;
    assert next.segment == k + 1 && next.counts == st.counts[k + 1 := 1];
    assert forall i :: 0 <= i < |cuts| ==> more[i] == cuts[i];
    assert Group(heard, more[k], more[k + 1], k);
    FirstOfPart(heard, n, k + 1);
  }

  lemma FirstOfPart(heard: seq<nat>, n: nat, k: nat)
    requires n < |heard| && heard[n] / CHUNK_FRAMES == k % CHUNKS
    ensures Part(heard, n, n + 1, k)
  {
  }

  lemma PartGrows(heard: seq<nat>, lo: nat, n: nat, k: nat)
    requires Part(heard, lo, n, k) && n < |heard| && heard[n] / CHUNK_FRAMES == k % CHUNKS
    requires n == lo || heard[n - 1] < heard[n]
    ensures Part(heard, lo, n + 1, k)
  {
    forall i, j | lo <= i < j < n + 1
      ensures heard[i] < heard[j]
    {
      if j == n && i < n - 1 {
        assert heard[i] < heard[n - 1];
      }
    }
  }

  /** A capture that is segmented never upsets the machine: its segment is the group the frame lies in. */
  lemma StepAccepts(heard: seq<nat>, cuts: seq<nat>, n: nat, st: State)
    requires Segmented(heard, cuts) && n < |heard| && st.segment < REQUIRED
    requires Tracks(heard, n, cuts[..st.segment + 1], st) && n <= cuts[st.segment + 1]
    ensures Step(st, heard[n]).Ok?
    ensures var next := Step(st, heard[n]).value;
            && next.segment < REQUIRED && n + 1 <= cuts[next.segment + 1]
            && Tracks(heard, n + 1, cuts[..next.segment + 1], next)
  {
    var k := st.segment;
    assert Group(heard, cuts[k], cuts[k + 1], k);
    if n < cuts[k + 1] {
      assert n > cuts[k] ==> heard[n - 1] < heard[n];
    } else {
      assert k + 1 < REQUIRED;
      assert Group(heard, cuts[k + 1], cuts[k + 2], k + 1);
    }
    StepTracks(heard, n, cuts[..k + 1], st);
    assert n == cuts[k + 1] ==> cuts[..k + 1] + [n] == cuts[..k + 2];
  }

  // Runs of sound

  ghost predicate Sounds(payload: seq<Byte>, i: nat)
    requires 4 * i + 4 <= |payload|
  {
    FrameAt(payload, i) != SILENCE
  }

  /** The bytes of the non-silent frames among the first `n`. */
  ghost function Sounding(payload: seq<Byte>, n: nat): (s: seq<Byte>)
    requires 4 * n <= |payload|
  {
    if n == 0 then []
    else Sounding(payload, n - 1) + if Sounds(payload, n - 1) then FrameAt(payload, n - 1) else []
  }

  /** How many stretches of sound start among the first `n` frames. */
  ghost function Onsets(payload: seq<Byte>, n: nat): (k: nat)
    requires 4 * n <= |payload|
  {
    if n == 0 then 0
    else Onsets(payload, n - 1) + if Sounds(payload, n - 1) && (n == 1 || !Sounds(payload, n - 2)) then 1 else 0
  }

  function Flatten(runs: seq<seq<Byte>>): (s: seq<Byte>) {
    if runs == [] then [] else Flatten(runs[..|runs| - 1]) + runs[|runs| - 1]
  }

  lemma FlattenAdds(runs: seq<seq<Byte>>, run: seq<Byte>)
    ensures Flatten(runs + [run]) == Flatten(runs) + run
  {
    assert (runs + [run])[..|runs|] == runs;
  }

  /** The runs are the maximal stretches of sound, in order. */
  method NonzeroRuns(payload: seq<Byte>) returns (runs: seq<seq<Byte>>)
    requires |payload| % 4 == 0
    ensures Flatten(runs) == Sounding(payload, |payload| / 4) && |runs| == Onsets(payload, |payload| / 4)
  {
    hide Flatten, Sounding, Onsets;
    runs := [];
    var start := -1;
    NoSoundYet(payload);
    for i := 0 to |payload| / 4
      invariant start < 0 ==> Flatten(runs) == Sounding(payload, i) && |runs| == Onsets(payload, i)
      invariant start < 0 ==> i == 0 || !Sounds(payload, i - 1)
      invariant start >= 0 ==> start <= 4 * i && i > 0 && Sounds(payload, i - 1)
      invariant start >= 0 ==> Flatten(runs) + payload[start..4 * i] == Sounding(payload, i) && |runs| + 1 == Onsets(payload, i)
    {
      OneMoreFrame(payload, i);
      var frame := FrameAt(payload, i);
      if frame != SILENCE {
        if start < 0 {
          start := 4 * i;
          assert payload[start..4 * (i + 1)] == frame;
        } else {
          assert payload[start..4 * (i + 1)] == payload[start..4 * i] + frame;
          assert Flatten(runs) + (payload[start..4 * i] + frame) == Flatten(runs) + payload[start..4 * i] + frame;
        }
      } else if start >= 0 {
        FlattenAdds(runs, payload[start..4 * i]);
        runs := runs + [payload[start..4 * i]];
        start := -1;
      }
    }
    if start >= 0 {
      FlattenAdds(runs, payload[start..]);
      assert payload[start..4 * (|payload| / 4)] == payload[start..];
      runs := runs + [payload[start..]];
    }
  }

  lemma NoSoundYet(payload: seq<Byte>)
    ensures Flatten([]) == Sounding(payload, 0) && Onsets(payload, 0) == 0
  {
  }

  lemma OneMoreFrame(payload: seq<Byte>, i: nat)
    requires 4 * (i + 1) <= |payload|
    ensures Sounding(payload, i + 1) == Sounding(payload, i) + if Sounds(payload, i) then FrameAt(payload, i) else []
    ensures Onsets(payload, i + 1) ==
            Onsets(payload, i) + if Sounds(payload, i) && (i == 0 || !Sounds(payload, i - 1)) then 1 else 0
    ensures !Sounds(payload, i) ==> Sounding(payload, i + 1) == Sounding(payload, i)
  {
  }

  function NonzeroSamples(s: seq<Byte>): (k: nat) {
    if |s| < 2 then 0
    else NonzeroSamples(s[..|s| - 2]) + if U16(s, |s| - 2) != 0 then 1 else 0
  }

  lemma TwoSamples(s: seq<Byte>, f: nat)
    ensures NonzeroSamples(s + FrameOf(f)) == NonzeroSamples(s) + 2
  {
    hide FrameOf;
    FrameSounds(f);
    var (frame, all) := (FrameOf(f), s + FrameOf(f));
    var half := s + frame[..2];
    assert all[..|all| - 2] == half && half[..|half| - 2] == s;
    assert U16(all, |all| - 2) == U16(frame, 2) && U16(half, |half| - 2) == U16(frame, 0);
  }

  /** Every heard frame brings two nonzero samples. */
  lemma {:induction false} HeardSounds(payload: seq<Byte>, n: nat, heard: seq<nat>)
    requires 4 * n <= |payload| && Hears(payload, n, heard)
    ensures NonzeroSamples(Sounding(payload, n)) == 2 * |heard|
    decreases n
  {
    hide FrameOf, NonzeroSamples;
    if n == 0 {
      NothingCounted();
    } else {
      var frame := FrameAt(payload, n - 1);
      if frame == SILENCE {
        HeardSounds(payload, n - 1, heard);
        assert Sounding(payload, n) == Sounding(payload, n - 1);
      } else {
        HeardSounds(payload, n - 1, heard[..|heard| - 1]);
        TwoSamples(Sounding(payload, n - 1), heard[|heard| - 1]);
      }
    }
  }

  lemma NothingCounted()
    ensures NonzeroSamples([]) == 0
  {
  }

  // The verifier

  /** The dictionary of the fixture's frames; its size test can never fail. */
  method ExpectedFrames() returns (frames: map<Frame, nat>)
    ensures |frames| == SDL_FRAMES
    ensures forall frame :: frame in frames ==> ComesFrom(frame, frames[frame])
    ensures forall f: nat :: f < SDL_FRAMES ==> FrameOf(f) in frames
  {
    hide FrameOf;
    frames := map[];
    for f := 0 to SDL_FRAMES
      invariant |frames| == f
      invariant forall frame :: frame in frames ==> frames[frame] < f && frame == FrameOf(frames[frame])
      invariant forall g: nat :: g < f ==> FrameOf(g) in frames
    {
      if FrameOf(f) in frames {
        FramesUnique(f, frames[FrameOf(f)]);
      }
      frames := frames[FrameOf(f) := f];
    }
  }

  datatype Report = Report(audioFrames: nat, runs: nat, nonzeroSamples: nat)

  /** The machine over a whole list of frames. */
  function RunSteps(heard: seq<nat>): (r: Result<State, SdlError>)
    ensures r.Ok? ==> |r.value.counts| == REQUIRED && r.value.segment < REQUIRED
  {
    if heard == [] then Ok(START)
    else
      var before :- RunSteps(heard[..|heard| - 1]);
      Step(before, heard[|heard| - 1])
  }

  /** On a segmented list the machine never stops, and it is in the group it should be in. */
  lemma {:induction false} SegmentedRuns(heard: seq<nat>, cuts: seq<nat>, n: nat)
    requires Segmented(heard, cuts) && n <= |heard|
    ensures RunSteps(heard[..n]).Ok?
    ensures var st := RunSteps(heard[..n]).value;
            n <= cuts[st.segment + 1] && Tracks(heard, n, cuts[..st.segment + 1], st)
    decreases n
  {
    hide Step, Tracks;
    if n == 0 {
      StartTracks(heard);
      assert cuts[..1] == [0];
    } else {
      SegmentedRuns(heard, cuts, n - 1);
      StepAccepts(heard, cuts, n - 1, RunSteps(heard[..n - 1]).value);
      assert heard[..n][..n - 1] == heard[..n - 1];
    }
  }

  lemma {:induction false} CutsBefore(heard: seq<nat>, cuts: seq<nat>, k: nat)
    requires Segmented(heard, cuts) && k <= REQUIRED
    ensures cuts[k] + MIN_FRAMES * (REQUIRED - k) <= |heard|
    decreases REQUIRED - k
  {
    hide Part;
    if k < REQUIRED {
      CutsBefore(heard, cuts, k + 1);
      assert Group(heard, cuts[k], cuts[k + 1], k);
    }
  }

  /** At the end of a segmented list every group is full. */
  lemma SegmentedEnds(heard: seq<nat>, cuts: seq<nat>)
    requires Segmented(heard, cuts)
    ensures RunSteps(heard).Ok? && RunSteps(heard).value.segment == REQUIRED - 1 && |heard| >= REQUIRED * MIN_FRAMES
    ensures forall k :: 0 <= k < REQUIRED ==> RunSteps(heard).value.counts[k] >= MIN_FRAMES
  {
    hide Part, RunSteps;
    SegmentedRuns(heard, cuts, |heard|);
    assert heard[..|heard|] == heard;
    var st := RunSteps(heard).value;
    CutsBefore(heard, cuts, st.segment + 1);
    CutsBefore(heard, cuts, 0);
    forall k | 0 <= k < REQUIRED
      ensures st.counts[k] >= MIN_FRAMES
    {
      assert Group(heard, cuts[k], cuts[k + 1], k);
      assert k < st.segment ==> Group(heard, cuts[..st.segment + 1][k], cuts[..st.segment + 1][k + 1], k);
    }
  }

  /** A tracked list whose eight groups are all full is segmented. */
  lemma Completed(heard: seq<nat>, cuts: seq<nat>, st: State)
    requires Tracks(heard, |heard|, cuts, st) && st.segment == REQUIRED - 1
    requires forall k :: 0 <= k < REQUIRED ==> st.counts[k] >= MIN_FRAMES
    ensures Segmented(heard, cuts + [|heard|])
  {
    hide Part;
    var all := cuts + [|heard|];
    forall k | 0 <= k < REQUIRED
      ensures Group(heard, all[k], all[k + 1], k)
    {
      assert st.counts[k] >= MIN_FRAMES;
    }
  }

  lemma {:induction false} HearsPrefix(payload: seq<Byte>, i: nat, n: nat, a: seq<nat>, b: seq<nat>)
    requires i <= n && 4 * n <= |payload| && Hears(payload, i, a) && Hears(payload, n, b)
    ensures a <= b
    decreases n
  {
    hide ComesFrom;
    if i == n {
      HearsUnique(payload, n, a, b);
    } else if FrameAt(payload, n - 1) == SILENCE {
      HearsPrefix(payload, i, n - 1, a, b);
    } else {
      HearsPrefix(payload, i, n - 1, a, b[..|b| - 1]);
    }
  }

  lemma {:induction false} HearsAll(payload: seq<Byte>, n: nat, heard: seq<nat>, i: nat) returns (f: nat)
    requires 4 * n <= |payload| && Hears(payload, n, heard) && i < n && FrameAt(payload, i) != SILENCE
    ensures ComesFrom(FrameAt(payload, i), f)
    decreases n
  {
    hide ComesFrom;
    if i == n - 1 {
      f := heard[|heard| - 1];
    } else if FrameAt(payload, n - 1) == SILENCE {
      f := HearsAll(payload, n - 1, heard, i);
    } else {
      f := HearsAll(payload, n - 1, heard[..|heard| - 1], i);
    }
  }

  lemma AlienRefused(payload: seq<Byte>, i: nat)
    requires |payload| % 4 == 0 && i < |payload| / 4 && FrameAt(payload, i) != SILENCE
    requires forall f: nat :: f < SDL_FRAMES ==> FrameAt(payload, i) != FrameOf(f)
    ensures !Acceptable(payload)
  {
    hide Segmented, FrameOf, Hears;
    if heard, cuts :| Hears(payload, |payload| / 4, heard) && Segmented(heard, cuts) {
      var f := HearsAll(payload, |payload| / 4, heard, i);
      assert false;
    }
  }

  lemma StoppedRefused(payload: seq<Byte>, i: nat, heard: seq<nat>)
    requires |payload| % 4 == 0 && i <= |payload| / 4 && Hears(payload, i, heard) && RunSteps(heard).Err?
    ensures !Acceptable(payload)
  {
    hide Segmented, Hears, RunSteps;
    if all, cuts :| Hears(payload, |payload| / 4, all) && Segmented(all, cuts) {
      HearsPrefix(payload, i, |payload| / 4, heard, all);
      assert all[..|heard|] == heard;
      SegmentedRuns(all, cuts, |heard|);
      assert false;
    }
  }

  lemma EndRefused(payload: seq<Byte>, heard: seq<nat>)
    requires |payload| % 4 == 0 && Hears(payload, |payload| / 4, heard) && RunSteps(heard).Ok?
    requires var st := RunSteps(heard).value;
             heard == [] || st.segment != REQUIRED - 1 || exists k :: 0 <= k < REQUIRED && st.counts[k] < MIN_FRAMES
    ensures !Acceptable(payload)
  {
    hide Segmented, Hears, RunSteps;
    if all, cuts :| Hears(payload, |payload| / 4, all) && Segmented(all, cuts) {
      HearsUnique(payload, |payload| / 4, all, heard);
      SegmentedEnds(all, cuts);
      assert false;
    }
  }

  lemma NextHeard(payload: seq<Byte>, i: nat, heard: seq<nat>, f: nat)
    requires 4 * (i + 1) <= |payload| && Hears(payload, i, heard)
    requires FrameAt(payload, i) != SILENCE && ComesFrom(FrameAt(payload, i), f)
    ensures Hears(payload, i + 1, heard + [f])
  {
    hide ComesFrom;
    assert (heard + [f])[..|heard|] == heard;
  }

  lemma NextRun(heard: seq<nat>, f: nat)
    requires RunSteps(heard).Ok?
    ensures RunSteps(heard + [f]) == Step(RunSteps(heard).value, f)
  {
    hide Step;
    assert (heard + [f])[..|heard|] == heard;
  }

  /** Tracking looks only at the frames so far. */
  lemma TracksMore(heard: seq<nat>, more: seq<nat>, cuts: seq<nat>, st: State)
    requires Tracks(heard, |heard|, cuts, st) && heard <= more
    ensures Tracks(more, |heard|, cuts, st)
  {
    assert forall i :: 0 <= i < |heard| ==> more[i] == heard[i];
  }

  /** The scan: it accepts exactly the captures that split into the eight groups, and its final silence test is
      never the one that fails. */
  method VerifySdl(payload: seq<Byte>) returns (r: Result<Report, SdlError>)
    requires |payload| % 4 == 0
    ensures r.Ok? <==> Acceptable(payload)
    ensures r.Err? ==> r.error != Silent
    ensures r.Ok? ==> exists heard, cuts :: Hears(payload, |payload| / 4, heard) && Segmented(heard, cuts)
                        && r.value == Report(|heard|, Onsets(payload, |payload| / 4), 2 * |heard|)
  {
    hide FrameOf, Step, Tracks, Segmented, Hears, RunSteps, Acceptable, Flatten, NonzeroSamples, Onsets, Sounding;
    var expected := ExpectedFrames();
    var runs := NonzeroRuns(payload);
    var st := START;
    ghost var heard: seq<nat>, cuts: seq<nat> := [], [0];
    StartScan(payload);
    var n := |payload| / 4;
    for i := 0 to n
      invariant |st.counts| == REQUIRED && st.segment < REQUIRED
      invariant Hears(payload, i, heard) && Tracks(heard, |heard|, cuts, st) && RunSteps(heard) == Ok(st)
    {
      var frame := FrameAt(payload, i);
      if frame == SILENCE {
        SilentFrame(payload, i, heard);
      } else {
        if frame !in expected {
          AlienRefused(payload, i);
          return Err(NotSdl);
        }
        var f := expected[frame];
        ghost var more := heard + [f];
        NextHeard(payload, i, heard, f);
        NextRun(heard, f);
        var next := Step(st, f);
        if next.Err? {
          StoppedRefused(payload, i + 1, more);
          StepErrors(st, f);
          return Err(next.error);
        }
        TracksMore(heard, more, cuts, st);
        StepTracks(more, |heard|, cuts, st);
        cuts := if next.value.segment == st.segment then cuts else cuts + [|heard|];
        heard := more;
        st := next.value;
      }
    }
    HeardSounds(payload, n, heard);
    if runs == [] || st.segment != REQUIRED - 1 || exists k :: 0 <= k < REQUIRED && st.counts[k] < MIN_FRAMES {
      if runs == [] {
        NothingRuns();
      }
      EndRefused(payload, heard);
      return Err(Incomplete);
    }
    Completed(heard, cuts, st);
    SegmentedEnds(heard, cuts + [|heard|]);
    AudioCounted(heard, cuts, st);
    var nonzero := NonzeroSamples(Flatten(runs));
    Witnessed(payload, heard, cuts + [|heard|]);
    if st.audio < REQUIRED * MIN_FRAMES || nonzero != st.audio * 2 {
      return Err(Silent);
    }
    return Ok(Report(st.audio, |runs|, nonzero));
  }

  lemma StartScan(payload: seq<Byte>)
    ensures Hears(payload, 0, []) && Tracks([], 0, [0], START) && RunSteps([]) == Ok(START)
  {
  }

  lemma SilentFrame(payload: seq<Byte>, i: nat, heard: seq<nat>)
    requires 4 * (i + 1) <= |payload| && Hears(payload, i, heard) && FrameAt(payload, i) == SILENCE
    ensures Hears(payload, i + 1, heard)
  {
  }

  lemma StepErrors(st: State, f: nat)
    requires |st.counts| == REQUIRED && st.segment < REQUIRED && Step(st, f).Err?
    ensures Step(st, f).error != Silent
  {
  }

  lemma NothingRuns()
    ensures NonzeroSamples(Flatten([])) == 0
  {
  }

  lemma AudioCounted(heard: seq<nat>, cuts: seq<nat>, st: State)
    requires Tracks(heard, |heard|, cuts, st)
    ensures st.audio == |heard|
  {
  }

  lemma Witnessed(payload: seq<Byte>, heard: seq<nat>, cuts: seq<nat>)
    requires |payload| % 4 == 0 && Hears(payload, |payload| / 4, heard) && Segmented(heard, cuts)
    ensures Acceptable(payload)
  {
  }
}
