// The logo tool's search for its primary mark: a stack flood fill over 4-connected pixels
// (crop_to_primary_mark in tools/make-logo-asset.py).

module PixelGraph {
  import opened Arithmetic

  // Cells of a row-major grid

  function X(width: nat, i: nat): (x: nat)
    requires width > 0
  {
    i % width
  }

  function Y(width: nat, i: nat): (y: nat)
    requires width > 0
  {
    i / width
  }

  lemma Coordinates(width: nat, x: nat, y: nat)
    requires x < width
    ensures X(width, y * width + x) == x && Y(width, y * width + x) == y
  {
    QuotientIs(width, y, x);
  }

  lemma Inside(width: nat, height: nat, x: nat, y: nat)
    requires x < width && y < height
    ensures y * width + x < width * height
  {
    assert y * width + x < (y + 1) * width;
    assert (y + 1) * width <= height * width;
  }

  lemma Split(width: nat, height: nat, i: nat)
    requires width > 0 && i < width * height
    ensures X(width, i) < width && Y(width, i) < height && i == Y(width, i) * width + X(width, i)
  {
    var y := i / width;
    assert i == y * width + i % width;
    if y >= height {
      assert y * width >= height * width;
    }
  }

  /** Side by side in a row, or one above the other. */
  ghost predicate Adjacent(width: nat, i: nat, j: nat)
    requires width > 0
  {
    || (X(width, i) == X(width, j) && (Y(width, i) == Y(width, j) + 1 || Y(width, j) == Y(width, i) + 1))
    || (Y(width, i) == Y(width, j) && (X(width, i) == X(width, j) + 1 || X(width, j) == X(width, i) + 1))
  }

  function Neighbours(width: nat, height: nat, i: nat): (ns: seq<nat>)
    requires width > 0 && i < width * height
  {
    Split(width, height, i);
    var (x, y) := (X(width, i), Y(width, i));
    (if x > 0 then assert i >= 1; [i - 1] else []) + (if x + 1 < width then [i + 1] else []) +
    (if y > 0 then AboveExists(width, x, y); [i - width] else []) + (if y + 1 < height then [i + width] else [])
  }

  lemma AboveExists(width: nat, x: nat, y: nat)
    requires y > 0
    ensures y * width + x - width == (y - 1) * width + x && y * width + x >= width
  {
    assert y * width == (y - 1) * width + width;
  }

  /** The neighbours the fill looks at are exactly the adjacent cells of the image. */
  lemma NeighboursExact(width: nat, height: nat, i: nat, j: nat)
    requires width > 0 && i < width * height
    ensures j in Neighbours(width, height, i) <==> j < width * height && Adjacent(width, i, j)
  {
    hide X, Y;
    Split(width, height, i);
    var (x, y) := (X(width, i), Y(width, i));
    if x > 0 {
      Coordinates(width, x - 1, y);
      Inside(width, height, x - 1, y);
    }
    if x + 1 < width {
      Coordinates(width, x + 1, y);
      Inside(width, height, x + 1, y);
    }
    if y > 0 {
      Coordinates(width, x, y - 1);
      AboveExists(width, x, y);
      Inside(width, height, x, y - 1);
    }
    if y + 1 < height {
      Coordinates(width, x, y + 1);
      AboveExists(width, x, y + 1);
      Inside(width, height, x, y + 1);
    }
    if j < width * height && Adjacent(width, i, j) {
      Split(width, height, j);
    }
  }

  /** They are distinct: left, right, above and below differ in their coordinates. */
  lemma NeighboursDistinct(width: nat, height: nat, i: nat)
    requires width > 0 && i < width * height
    ensures Distinct(Neighbours(width, height, i))
  {
    hide X, Y;
    Split(width, height, i);
    var (x, y) := (X(width, i), Y(width, i));
    if width == 1 {
      assert x == 0;
    }
  }

  ghost predicate Distinct(s: seq<nat>) {
    forall a, b :: 0 <= a < b < |s| ==> s[a] != s[b]
  }

  // Connected components

  /** A walk over occupied pixels, each adjacent to the one before. */
  ghost predicate Path(width: nat, occupied: seq<bool>, p: seq<nat>)
    requires width > 0
  {
    var n := |p| - 1;
    && p != [] && p[n] < |occupied| && occupied[p[n]]
    && (n > 0 ==> Path(width, occupied, p[..n]) && Adjacent(width, p[n - 1], p[n]))
  }

  ghost predicate PathBetween(width: nat, occupied: seq<bool>, p: seq<nat>, a: nat, b: nat)
    requires width > 0
  {
    Path(width, occupied, p) && p[0] == a && p[|p| - 1] == b
  }

  ghost predicate Connected(width: nat, occupied: seq<bool>, a: nat, b: nat)
    requires width > 0
  {
    exists p :: PathBetween(width, occupied, p, a, b)
  }

  ghost function Component(width: nat, occupied: seq<bool>, a: nat): (c: set<nat>)
    requires width > 0
  {
    set j: nat | j < |occupied| && Connected(width, occupied, a, j)
  }

  lemma SelfConnected(width: nat, occupied: seq<bool>, a: nat)
    requires width > 0 && a < |occupied| && occupied[a]
    ensures Connected(width, occupied, a, a)
  {
    assert PathBetween(width, occupied, [a], a, a);
  }

  lemma StepConnected(width: nat, occupied: seq<bool>, a: nat, b: nat, c: nat)
    requires width > 0 && Connected(width, occupied, a, b)
    requires c < |occupied| && occupied[c] && Adjacent(width, b, c)
    ensures Connected(width, occupied, a, c)
  {
    hide Adjacent;
    var p :| PathBetween(width, occupied, p, a, b);
    assert (p + [c])[..|p|] == p;
    assert PathBetween(width, occupied, p + [c], a, c);
  }

  lemma {:induction false} JoinConnected(width: nat, occupied: seq<bool>, a: nat, b: nat, p: seq<nat>, c: nat)
    requires width > 0 && Connected(width, occupied, a, b) && PathBetween(width, occupied, p, b, c)
    ensures Connected(width, occupied, a, c)
    decreases |p|
  {
    hide Adjacent, Connected;
    var n := |p| - 1;
    if n > 0 {
      JoinConnected(width, occupied, a, b, p[..n], p[n - 1]);
      StepConnected(width, occupied, a, p[n - 1], c);
    }
  }

  lemma {:induction false} BackPath(width: nat, occupied: seq<bool>, p: seq<nat>, a: nat, b: nat)
    requires width > 0 && PathBetween(width, occupied, p, a, b)
    ensures Connected(width, occupied, b, a)
    decreases |p|
  {
    hide Connected;
    var n := |p| - 1;
    SelfConnected(width, occupied, b);
    if n > 0 {
      BackPath(width, occupied, p[..n], a, p[n - 1]);
      StepConnected(width, occupied, b, b, p[n - 1]);
      ConnectedTransitive(width, occupied, b, p[n - 1], a);
    }
  }

  lemma {:induction false} EndsOccupied(width: nat, occupied: seq<bool>, p: seq<nat>)
    requires width > 0 && Path(width, occupied, p)
    ensures p[0] < |occupied| && occupied[p[0]] && p[|p| - 1] < |occupied| && occupied[p[|p| - 1]]
    decreases |p|
  {
    if |p| > 1 {
      EndsOccupied(width, occupied, p[..|p| - 1]);
    }
  }

  lemma ConnectedSymmetric(width: nat, occupied: seq<bool>, a: nat, b: nat)
    requires width > 0 && Connected(width, occupied, a, b)
    ensures Connected(width, occupied, b, a) && a < |occupied| && b < |occupied| && occupied[a] && occupied[b]
  {
    var p :| PathBetween(width, occupied, p, a, b);
    BackPath(width, occupied, p, a, b);
    EndsOccupied(width, occupied, p);
  }

  lemma ConnectedTransitive(width: nat, occupied: seq<bool>, a: nat, b: nat, c: nat)
    requires width > 0 && Connected(width, occupied, a, b) && Connected(width, occupied, b, c)
    ensures Connected(width, occupied, a, c)
  {
    var p :| PathBetween(width, occupied, p, b, c);
    JoinConnected(width, occupied, a, b, p, c);
  }

  /** No edge leaves the set. */
  ghost predicate Closed(width: nat, occupied: seq<bool>, s: set<nat>)
    requires width > 0
  {
    forall i, j :: i in s && 0 <= j < |occupied| && occupied[j] && Adjacent(width, i, j) ==> j in s
  }

  lemma {:induction false} ClosedHoldsPath(width: nat, occupied: seq<bool>, s: set<nat>, p: seq<nat>)
    requires width > 0 && Path(width, occupied, p) && p[0] in s && Closed(width, occupied, s)
    ensures p[|p| - 1] in s
    decreases |p|
  {
    hide Adjacent;
    if |p| > 1 {
      ClosedHoldsPath(width, occupied, s, p[..|p| - 1]);
    }
  }

  lemma ClosedHoldsConnected(width: nat, occupied: seq<bool>, s: set<nat>, a: nat, b: nat)
    requires width > 0 && a in s && Closed(width, occupied, s) && Connected(width, occupied, a, b)
    ensures b in s
  {
    hide Closed;
    var p :| PathBetween(width, occupied, p, a, b);
    ClosedHoldsPath(width, occupied, s, p);
  }
}

module FloodFill {
  import opened PixelGraph

  /** A component's size and bounding box. */
  datatype Mark = Mark(count: nat, minX: nat, minY: nat, maxX: nat, maxY: nat)

  datatype Option<T> = None | Some(value: T)

  /** The box holds every cell of the set. */
  ghost predicate Bounds(width: nat, m: Mark, s: set<nat>)
    requires width > 0
  {
    forall i :: i in s ==> m.minX <= X(width, i) <= m.maxX && m.minY <= Y(width, i) <= m.maxY
  }

  /** Each side of the box touches a cell of the set. */
  ghost predicate Touches(width: nat, m: Mark, s: set<nat>)
    requires width > 0
  {
    && (exists i :: i in s && X(width, i) == m.minX) && (exists i :: i in s && X(width, i) == m.maxX)
    && (exists i :: i in s && Y(width, i) == m.minY) && (exists i :: i in s && Y(width, i) == m.maxY)
  }

  /** The true size and the tight bounding box of a set of cells. */
  ghost predicate Describes(width: nat, m: Mark, s: set<nat>)
    requires width > 0
  {
    m.count == |s| && Bounds(width, m, s) && Touches(width, m, s)
  }

  function Min(a: nat, b: nat): nat {
    if b < a then b else a
  }

  function Max(a: nat, b: nat): nat {
    if b > a then b else a
  }

  function Widen(width: nat, m: Mark, i: nat): (r: Mark)
    requires width > 0
  {
    Mark(m.count + 1, Min(m.minX, X(width, i)), Min(m.minY, Y(width, i)), Max(m.maxX, X(width, i)), Max(m.maxY, Y(width, i)))
  }

  lemma WidenBounds(width: nat, m: Mark, i: nat, s: set<nat>)
    requires width > 0 && Bounds(width, m, s) && Touches(width, m, s)
    ensures Bounds(width, Widen(width, m, i), s + {i}) && Touches(width, Widen(width, m, i), s + {i})
  {
    hide X, Y;
    var t, r := s + {i}, Widen(width, m, i);
    var a :| a in s && X(width, a) == m.minX;
    var b :| b in s && X(width, b) == m.maxX;
    var c :| c in s && Y(width, c) == m.minY;
    var d :| d in s && Y(width, d) == m.maxY;
    var (a', b') := (if X(width, i) < m.minX then i else a, if X(width, i) > m.maxX then i else b);
    var (c', d') := (if Y(width, i) < m.minY then i else c, if Y(width, i) > m.maxY then i else d);
    assert a' in t && X(width, a') == r.minX && b' in t && X(width, b') == r.maxX;
    assert c' in t && Y(width, c') == r.minY && d' in t && Y(width, d') == r.maxY;
  }

  ghost function Items(s: seq<nat>): (r: set<nat>) {
    set i | i in s
  }

  /** The neighbours still occupied are cleared and pushed. */
  method PushNeighbours(occupied: array<bool>, neighbours: seq<nat>, stack: seq<nat>) returns (pushed: seq<nat>)
    requires Distinct(neighbours) && forall k :: 0 <= k < |neighbours| ==> neighbours[k] < occupied.Length
    modifies occupied
    ensures stack <= pushed && Distinct(pushed[|stack|..])
    ensures forall j :: j in pushed[|stack|..] <==> j in neighbours && old(occupied[j])
    ensures forall j :: 0 <= j < occupied.Length ==> (occupied[j] <==> old(occupied[j]) && j !in neighbours)
  {
    var added: seq<nat> := [];
    for k := 0 to |neighbours|
      invariant Distinct(added)
      invariant forall j :: j in added <==> j in neighbours[..k] && old(occupied[j])
      invariant forall j :: 0 <= j < occupied.Length ==> (occupied[j] <==> old(occupied[j]) && j !in neighbours[..k])
    {
      var n := neighbours[k];
      assert neighbours[..k + 1] == neighbours[..k] + [n];
      assert n !in neighbours[..k];
      if occupied[n] {
        occupied[n] := false;
        added := added + [n];
      }
    }
    assert neighbours[..|neighbours|] == neighbours;
    pushed := stack + added;
    assert pushed[|stack|..] == added;
  }

  /** Nothing outside the fill was cleared: occupied cells stand or fall with their neighbours. */
  ghost predicate Saturated(width: nat, start: seq<bool>, now: seq<bool>)
    requires width > 0 && |now| == |start|
  {
    && (forall j :: 0 <= j < |now| ==> now[j] ==> start[j])
    && (forall i, j :: 0 <= i < |now| && 0 <= j < |now| && now[i] && start[j] && Adjacent(width, i, j) ==> now[j])
  }

  /** What the fill knows when `seen` has been popped and `stack` waits: together they are connected to the
      seed, cleared, and hold every occupied neighbour of what was popped. */
  ghost predicate Filling(width: nat, start: seq<bool>, before: seq<bool>, now: seq<bool>, seed: nat, seen: set<nat>,
                          stack: seq<nat>)
    requires width > 0 && |now| == |before| == |start|
  {
    && Distinct(stack) && seen !! Items(stack) && seed in seen + Items(stack)
    && (forall j :: j in seen + Items(stack) ==> j < |start| && before[j] && Connected(width, start, seed, j))
    && (forall j :: 0 <= j < |now| ==> (now[j] <==> before[j] && j !in seen + Items(stack)))
    && (forall i, j :: i in seen && 0 <= j < |start| && start[j] && Adjacent(width, i, j) ==> j in seen + Items(stack))
  }

  lemma StartFilling(width: nat, start: seq<bool>, before: seq<bool>, seed: nat)
    requires width > 0 && |before| == |start| && Saturated(width, start, before) && seed < |before| && before[seed]
    ensures Filling(width, start, before, before[seed := false], seed, {}, [seed])
  {
    SelfConnected(width, start, seed);
    assert Items([seed]) == {seed};
  }

  /** One round of the loop keeps it: pop a cell, push its occupied neighbours. */
  lemma KeepFilling(width: nat, height: nat, start: seq<bool>, before: seq<bool>, was: seq<bool>, now: seq<bool>,
                    seed: nat, seen: set<nat>, rest: seq<nat>, i: nat, pushed: seq<nat>)
    requires width > 0 && |now| == |was| == |before| == |start| == width * height
    requires Saturated(width, start, before) && Filling(width, start, before, was, seed, seen, rest + [i])
    requires i < width * height && rest <= pushed && Distinct(pushed[|rest|..])
    requires var ns := Neighbours(width, height, i);
             && (forall j :: j in pushed[|rest|..] <==> j in ns && j < |was| && was[j])
             && (forall j :: 0 <= j < |now| ==> (now[j] <==> was[j] && j !in ns))
    ensures i !in seen && Filling(width, start, before, now, seed, seen + {i}, pushed)
  {
    hide Neighbours, Adjacent, Connected;
    var added := pushed[|rest|..];
    var ns := Neighbours(width, height, i);
    Popped(rest, i, added, seen);
    assert pushed == rest + added;
    var all, more := seen + Items(rest + [i]), seen + {i} + Items(pushed);
    assert more == all + Items(added);
    assert i in all && before[i];
    forall j: nat
      ensures j in ns <==> j < width * height && Adjacent(width, i, j)
    {
      NeighboursExact(width, height, i, j);
    }
    forall j | j in added
      ensures j < |start| && before[j] && Connected(width, start, seed, j) && j !in all
    {
      StepConnected(width, start, seed, i, j);
    }
    DistinctJoin(rest, added);
    forall j | 0 <= j < |start| && start[j] && Adjacent(width, i, j)
      ensures j in more
    {
      assert before[j];
      if was[j] {
        assert j in added;
      }
    }
  }

  lemma Popped(rest: seq<nat>, i: nat, added: seq<nat>, seen: set<nat>)
    requires Distinct(rest + [i]) && seen !! Items(rest + [i])
    ensures Items(rest + [i]) == Items(rest) + {i} && Items(rest + added) == Items(rest) + Items(added)
    ensures Distinct(rest) && i !in rest && i !in seen
  {
    var s := rest + [i];
    assert forall k :: 0 <= k < |rest| ==> s[k] == rest[k];
    assert s[|rest|] == i;
  }

  lemma DistinctJoin(a: seq<nat>, b: seq<nat>)
    requires Distinct(a) && Distinct(b) && Items(a) !! Items(b)
    ensures Distinct(a + b)
  {
    forall i, j | 0 <= i < j < |a + b|
      ensures (a + b)[i] != (a + b)[j]
    {
      if i < |a| && j >= |a| {
        assert (a + b)[i] in Items(a) && (a + b)[j] in Items(b);
      }
    }
  }

  /** An empty stack means the whole component was popped. */
  lemma DoneFilling(width: nat, start: seq<bool>, before: seq<bool>, now: seq<bool>, seed: nat, seen: set<nat>)
    requires width > 0 && |now| == |before| == |start| && Filling(width, start, before, now, seed, seen, [])
    ensures seen == Component(width, start, seed)
  {
    hide Adjacent, Connected;
    assert seen + Items([]) == seen;
    assert Closed(width, start, seen);
    forall j | j in Component(width, start, seed)
      ensures j in seen
    {
      ClosedHoldsConnected(width, start, seen, seed, j);
    }
  }

  ghost function Cells(n: nat): (s: set<nat>)
    ensures |s| == n && forall i: nat :: i in s <==> i < n
  {
    if n == 0 then {} else Cells(n - 1) + {n - 1}
  }

  lemma AtMost(s: set<nat>, n: nat)
    requires forall i :: i in s ==> i < n
    ensures |s| <= n
  {
    SubsetSize(s, Cells(n));
  }

  lemma {:induction false} SubsetSize(a: set<nat>, b: set<nat>)
    requires a <= b
    ensures |a| <= |b|
    decreases |a|
  {
    if a != {} {
      var x :| x in a;
      SubsetSize(a - {x}, b - {x});
    }
  }

  /** Fills from `seed`: clears exactly its component and measures it. Each cell is pushed at most once. */
  method Flood(width: nat, height: nat, occupied: array<bool>, seed: nat, ghost start: seq<bool>) returns (m: Mark)
    requires width > 0 && occupied.Length == width * height == |start| && seed < occupied.Length && occupied[seed]
    requires Saturated(width, start, occupied[..])
    modifies occupied
    ensures Describes(width, m, Component(width, start, seed))
    ensures forall j :: 0 <= j < occupied.Length ==>
              (occupied[j] <==> old(occupied[j]) && j !in Component(width, start, seed))
  {
    hide Filling, Saturated, Neighbours, Connected, X, Y, Bounds, Touches;
    ghost var before := occupied[..];
    occupied[seed] := false;
    var stack := [seed];
    m := Mark(0, X(width, seed), Y(width, seed), X(width, seed), Y(width, seed));
    ghost var seen: set<nat> := {};
    StartFilling(width, start, before, seed);
    StartBox(width, m, seed);
    assert occupied[..] == before[seed := false];
    while stack != []
      invariant Filling(width, start, before, occupied[..], seed, seen, stack)
      invariant m.count == |seen| && Bounds(width, m, seen + {seed}) && Touches(width, m, seen + {seed})
      invariant forall i :: i in seen ==> i < width * height
      invariant |seen| <= width * height
      decreases width * height - |seen|
    {
      var i := stack[|stack| - 1];
      var rest := stack[..|stack| - 1];
      assert stack == rest + [i] && i in stack;
      InRange(width, start, before, occupied[..], seed, seen, stack);
      ghost var was := occupied[..];
      WidenBounds(width, m, i, seen + {seed});
      m := Widen(width, m, i);
      var neighbours := Neighbours(width, height, i);
      NeighboursDistinct(width, height, i);
      NeighboursInside(width, height, i);
      var pushed := PushNeighbours(occupied, neighbours, rest);
      KeepFilling(width, height, start, before, was, occupied[..], seed, seen, rest, i, pushed);
      assert seen + {seed} + {i} == seen + {i} + {seed};
      seen := seen + {i};
      AtMost(seen, width * height);
      stack := pushed;
    }
    DoneFilling(width, start, before, occupied[..], seed, seen);
    EndFilling(width, start, before, occupied[..], seed, seen);
    assert seen + {seed} == seen;
  }

  lemma StartBox(width: nat, m: Mark, seed: nat)
    requires width > 0 && m == Mark(0, X(width, seed), Y(width, seed), X(width, seed), Y(width, seed))
    ensures Bounds(width, m, {} + {seed}) && Touches(width, m, {} + {seed})
  {
    hide X, Y;
    var s: set<nat> := {} + {seed};
    assert seed in s;
  }

  lemma InRange(width: nat, start: seq<bool>, before: seq<bool>, now: seq<bool>, seed: nat, seen: set<nat>, stack: seq<nat>)
    requires width > 0 && |now| == |before| == |start| && Filling(width, start, before, now, seed, seen, stack)
    ensures forall i :: i in stack ==> i < |start|
  {
    assert forall i :: i in stack ==> i in seen + Items(stack);
  }

  lemma NeighboursInside(width: nat, height: nat, i: nat)
    requires width > 0 && i < width * height
    ensures forall k :: 0 <= k < |Neighbours(width, height, i)| ==> Neighbours(width, height, i)[k] < width * height
  {
    hide Neighbours, Adjacent;
    var ns := Neighbours(width, height, i);
    forall k | 0 <= k < |ns|
      ensures ns[k] < width * height
    {
      NeighboursExact(width, height, i, ns[k]);
    }
  }

  lemma EndFilling(width: nat, start: seq<bool>, before: seq<bool>, now: seq<bool>, seed: nat, seen: set<nat>)
    requires width > 0 && |now| == |before| == |start| && Filling(width, start, before, now, seed, seen, [])
    ensures seed in seen && forall j :: 0 <= j < |now| ==> (now[j] <==> before[j] && j !in seen)
  {
    assert seen + Items([]) == seen;
  }

  // Every component, once

  ghost predicate Increasing(s: seq<nat>) {
    forall a, b :: 0 <= a < b < |s| ==> s[a] < s[b]
  }

  /** The seeds found so far are the least cells of distinct components. */
  ghost predicate Leaders(width: nat, start: seq<bool>, seeds: seq<nat>)
    requires width > 0
  {
    && Increasing(seeds)
    && (forall t :: t in seeds ==> t < |start| && start[t])
    && (forall t, j :: t in seeds && Connected(width, start, t, j) ==> t <= j)
    && (forall t, u :: t in seeds && u in seeds && Connected(width, start, t, u) ==> t == u)
  }

  /** A cell is still occupied exactly when it was and no seed reaches it; everything before `s` is done. */
  ghost predicate Swept(width: nat, start: seq<bool>, now: seq<bool>, seeds: seq<nat>, s: nat)
    requires width > 0 && |now| == |start|
  {
    && Leaders(width, start, seeds)
    && (forall j :: 0 <= j < |now| ==> (now[j] <==> start[j] && forall t :: t in seeds ==> !Connected(width, start, t, j)))
    && (forall j :: 0 <= j < s && j < |now| ==> !now[j])
  }

  lemma SweptSaturated(width: nat, start: seq<bool>, now: seq<bool>, seeds: seq<nat>, s: nat)
    requires width > 0 && |now| == |start| && Swept(width, start, now, seeds, s)
    ensures Saturated(width, start, now)
  {
    hide Adjacent, Connected;
    forall i, j | 0 <= i < |now| && 0 <= j < |now| && now[i] && start[j] && Adjacent(width, i, j)
      ensures now[j]
    {
      forall t | t in seeds
        ensures !Connected(width, start, t, j)
      {
        if Connected(width, start, t, j) {
          AdjacentSymmetric(width, i, j);
          StepConnected(width, start, t, j, i);
        }
      }
    }
  }

  lemma AdjacentSymmetric(width: nat, i: nat, j: nat)
    requires width > 0 && Adjacent(width, i, j)
    ensures Adjacent(width, j, i)
  {
  }

  /** A seed the scan comes to leads a new component. */
  lemma NewLeader(width: nat, start: seq<bool>, now: seq<bool>, next: seq<bool>, seeds: seq<nat>, s: nat)
    requires width > 0 && |now| == |next| == |start| && Swept(width, start, now, seeds, s) && s < |now| && now[s]
    requires forall t :: t in seeds ==> t < s
    requires forall j :: 0 <= j < |now| ==> (next[j] <==> now[j] && j !in Component(width, start, s))
    ensures Swept(width, start, next, seeds + [s], s + 1)
  {
    hide Connected;
    var more := seeds + [s];
    forall j: nat | Connected(width, start, s, j)
      ensures s <= j && j < |now| && now[j] && forall t :: t in seeds ==> !Connected(width, start, t, j)
    {
      ConnectedSymmetric(width, start, s, j);
      forall t | t in seeds
        ensures !Connected(width, start, t, j)
      {
        if Connected(width, start, t, j) {
          ConnectedTransitive(width, start, t, j, s);
        }
      }
      assert now[j];
    }
    forall t | t in seeds
      ensures !Connected(width, start, s, t) && !Connected(width, start, t, s)
    {
      SelfConnected(width, start, t);
    }
    SelfConnected(width, start, s);
    MoreLeaders(width, start, seeds, s);
  }

  lemma MoreLeaders(width: nat, start: seq<bool>, seeds: seq<nat>, s: nat)
    requires width > 0 && Leaders(width, start, seeds) && s < |start| && start[s]
    requires forall t :: t in seeds ==> t < s && !Connected(width, start, s, t) && !Connected(width, start, t, s)
    requires forall j: nat :: Connected(width, start, s, j) ==> s <= j
    ensures Leaders(width, start, seeds + [s])
  {
    hide Connected;
    var more := seeds + [s];
    assert forall t :: t in more <==> t in seeds || t == s;
    assert forall a :: 0 <= a < |seeds| ==> seeds[a] in seeds;
    assert Increasing(more);
  }

  /** `m` describes the first of the largest components. */
  ghost predicate Largest(width: nat, start: seq<bool>, seeds: seq<nat>, m: Mark, k: nat)
    requires width > 0
  {
    && k < |seeds| && Describes(width, m, Component(width, start, seeds[k]))
    && (forall i :: 0 <= i < |seeds| ==> |Component(width, start, seeds[i])| <= m.count)
    && (forall i :: 0 <= i < k ==> |Component(width, start, seeds[i])| < m.count)
  }

  lemma StillLargest(width: nat, start: seq<bool>, seeds: seq<nat>, m: Mark, k: nat, s: nat, n: Mark)
    requires width > 0 && Largest(width, start, seeds, m, k) && Describes(width, n, Component(width, start, s))
    ensures n.count > m.count ==> Largest(width, start, seeds + [s], n, |seeds|)
    ensures n.count <= m.count ==> Largest(width, start, seeds + [s], m, k)
  {
    hide Component, Bounds, Touches;
    var more := seeds + [s];
    assert forall i :: 0 <= i < |seeds| ==> more[i] == seeds[i];
  }

  lemma FirstLargest(width: nat, start: seq<bool>, s: nat, n: Mark)
    requires width > 0 && Describes(width, n, Component(width, start, s))
    ensures Largest(width, start, [] + [s], n, 0)
  {
    hide Component, Bounds, Touches;
    assert [] + [s] == [s];
  }

  /** Each 4-connected component of the occupied pixels is found exactly once, and the result describes the
      first of the largest: true size, tight bounding box. */
  method LargestMark(width: nat, height: nat, start: seq<bool>)
    returns (largest: Option<Mark>, ghost seeds: seq<nat>, ghost best: nat)
    requires |start| == width * height && width > 0
    ensures Leaders(width, start, seeds)
    ensures forall j :: 0 <= j < |start| && start[j] ==> exists t :: t in seeds && Connected(width, start, t, j)
    ensures largest.None? <==> forall j :: 0 <= j < |start| ==> !start[j]
    ensures largest.Some? ==> Largest(width, start, seeds, largest.value, best)
  {
    hide Connected, Describes, Component, Saturated, Swept, Largest, Leaders;
    largest, seeds, best := None, [], 0;
    var occupied := new bool[|start|](i requires 0 <= i < |start| => start[i]);
    assert occupied[..] == start;
    StartSweep(width, start);
    for seed := 0 to |start|
      invariant Swept(width, start, occupied[..], seeds, seed)
      invariant forall t :: t in seeds ==> t < seed
      invariant seeds == [] <==> largest.None?
      invariant largest.Some? ==> Largest(width, start, seeds, largest.value, best)
    {
      if occupied[seed] {
        ghost var now := occupied[..];
        SweptSaturated(width, start, now, seeds, seed);
        var candidate := Flood(width, height, occupied, seed, start);
        NewLeader(width, start, now, occupied[..], seeds, seed);
        if largest.None? {
          FirstLargest(width, start, seed, candidate);
          largest, best := Some(candidate), 0;
        } else {
          StillLargest(width, start, seeds, largest.value, best, seed, candidate);
          if candidate.count > largest.value.count {
            largest, best := Some(candidate), |seeds|;
          }
        }
        seeds := seeds + [seed];
      } else {
        SkipCell(width, start, occupied[..], seeds, seed);
      }
    }
    EndSweep(width, start, occupied[..], seeds);
  }

  lemma StartSweep(width: nat, start: seq<bool>)
    requires width > 0
    ensures Swept(width, start, start, [], 0)
  {
    hide Connected;
  }

  lemma SkipCell(width: nat, start: seq<bool>, now: seq<bool>, seeds: seq<nat>, s: nat)
    requires width > 0 && |now| == |start| && Swept(width, start, now, seeds, s) && s < |now| && !now[s]
    ensures Swept(width, start, now, seeds, s + 1)
  {
    hide Connected;
  }

  lemma EndSweep(width: nat, start: seq<bool>, now: seq<bool>, seeds: seq<nat>)
    requires width > 0 && |now| == |start| && Swept(width, start, now, seeds, |start|)
    ensures Leaders(width, start, seeds)
    ensures forall j :: 0 <= j < |start| && start[j] ==> exists t :: t in seeds && Connected(width, start, t, j)
    ensures seeds == [] <==> forall j :: 0 <= j < |start| ==> !start[j]
  {
    hide Connected;
    if seeds != [] {
      assert seeds[0] in seeds;
    }
  }
}

module LogoCrop {
  import opened Arithmetic
  import opened Bytes
  import opened PixelGraph
  import opened FloodFill

  const THRESHOLD := 8
  const PADDING := 8

  datatype CropError = NoVisibleMark

  /** Which pixels are opaque enough to count. */
  function Visible(pixels: seq<Byte>, total: nat): (occupied: seq<bool>)
    requires |pixels| == 4 * total
    ensures |occupied| == total
  {
    seq(total, i requires 0 <= i < total => pixels[4 * i + 3] >= THRESHOLD)
  }

  datatype Window = Window(x: nat, y: nat, width: nat, height: nat)

  /** The padded box, clipped to the image. */
  function Pad(m: Mark, width: nat, height: nat): (w: Window)
    requires m.minX <= m.maxX < width && m.minY <= m.maxY < height
    ensures w.width > 0 && w.height > 0 && w.x + w.width <= width && w.y + w.height <= height
    ensures w.x <= m.minX && m.maxX < w.x + w.width && w.y <= m.minY && m.maxY < w.y + w.height
  {
    var (x, y) := (Max(PADDING, m.minX) - PADDING, Max(PADDING, m.minY) - PADDING);
    Window(x, y, Min(width - 1, m.maxX + PADDING) - x + 1, Min(height - 1, m.maxY + PADDING) - y + 1)
  }

  /** Eight more on each side, as far as the image goes. */
  lemma PadIs(m: Mark, width: nat, height: nat)
    requires m.minX <= m.maxX < width && m.minY <= m.maxY < height
    ensures var w := Pad(m, width, height);
            && w.x == (if m.minX < 8 then 0 else m.minX - 8) && w.y == (if m.minY < 8 then 0 else m.minY - 8)
            && w.x + w.width == (if m.maxX + 9 <= width then m.maxX + 9 else width)
            && w.y + w.height == (if m.maxY + 9 <= height then m.maxY + 9 else height)
  {
  }

  lemma VisibleIs(pixels: seq<Byte>, total: nat)
    requires |pixels| == 4 * total
    ensures forall i :: 0 <= i < total ==> (Visible(pixels, total)[i] <==> pixels[4 * i + 3] >= 8)
  {
  }

  /** Where the bytes of a pixel start. */
  function Offset(width: nat, x: nat, y: nat): (at: nat) {
    NonNegative(y, width);
    4 * (y * width + x)
  }

  lemma OffsetInside(width: nat, height: nat, x: nat, y: nat)
    requires x < width && y < height
    ensures Offset(width, x, y) + 4 <= 4 * (width * height)
  {
    Inside(width, height, x, y);
  }

  /** The bytes of one row of the window. */
  function WindowRow(pixels: seq<Byte>, width: nat, height: nat, w: Window, y: nat): (row: seq<Byte>)
    requires |pixels| == 4 * (width * height) && y < w.height && w.width > 0
    requires w.x + w.width <= width && w.y + w.height <= height
    ensures |row| == 4 * w.width
  {
    OffsetInside(width, height, w.x + w.width - 1, w.y + y);
    var at := Offset(width, w.x, w.y + y);
    pixels[at..at + 4 * w.width]
  }

  function WindowRows(pixels: seq<Byte>, width: nat, height: nat, w: Window, n: nat): (rows: seq<Byte>)
    requires |pixels| == 4 * (width * height) && n <= w.height && w.width > 0
    requires w.x + w.width <= width && w.y + w.height <= height
    ensures |rows| == Offset(w.width, 0, n)
  {
    if n == 0 then []
    else
      Distribute(n, 1, w.width);
      WindowRows(pixels, width, height, w, n - 1) + WindowRow(pixels, width, height, w, n - 1)
  }

  lemma OffsetSteps(width: nat, x: nat, y: nat, n: nat)
    requires x < width && y < n
    ensures Offset(width, x, y) == Offset(width, 0, y) + 4 * x && Offset(width, x, y) + 4 <= Offset(width, 0, n)
  {
    Inside(width, n, x, y);
  }

  /** Every pixel of the window is the image's pixel at the same place. */
  lemma {:induction false} WindowPixel(pixels: seq<Byte>, width: nat, height: nat, w: Window, n: nat, x: nat, y: nat)
    requires |pixels| == 4 * (width * height) && n <= w.height && w.x + w.width <= width && w.y + w.height <= height
    requires x < w.width && y < n
    ensures Offset(w.width, x, y) + 4 <= |WindowRows(pixels, width, height, w, n)|
    ensures Offset(width, w.x + x, w.y + y) + 4 <= |pixels|
    ensures var (to, from) := (Offset(w.width, x, y), Offset(width, w.x + x, w.y + y));
            WindowRows(pixels, width, height, w, n)[to..to + 4] == pixels[from..from + 4]
    decreases n
  {
    hide WindowRow, Offset;
    OffsetSteps(w.width, x, y, n);
    OffsetInside(width, height, w.x + x, w.y + y);
    var to := Offset(w.width, x, y);
    var rows := WindowRows(pixels, width, height, w, n);
    var before := WindowRows(pixels, width, height, w, n - 1);
    if y < n - 1 {
      WindowPixel(pixels, width, height, w, n - 1, x, y);
      assert rows[to..to + 4] == before[to..to + 4];
    } else {
      RowPixel(pixels, width, height, w, x, y);
      var row := WindowRow(pixels, width, height, w, y);
      assert rows[to..to + 4] == row[4 * x..4 * x + 4];
    }
  }

  lemma RowPixel(pixels: seq<Byte>, width: nat, height: nat, w: Window, x: nat, y: nat)
    requires |pixels| == 4 * (width * height) && y < w.height && x < w.width
    requires w.x + w.width <= width && w.y + w.height <= height
    ensures Offset(width, w.x + x, w.y + y) + 4 <= |pixels|
    ensures var from := Offset(width, w.x + x, w.y + y);
            WindowRow(pixels, width, height, w, y)[4 * x..4 * x + 4] == pixels[from..from + 4]
  {
    hide Offset;
    OffsetInside(width, height, w.x + x, w.y + y);
    OffsetInside(width, height, w.x + w.width - 1, w.y + y);
    OffsetShift(width, w.x, x, w.y + y);
    OffsetShift(width, w.x, w.width - 1, w.y + y);
    var at := Offset(width, w.x, w.y + y);
    SliceOfSlice(pixels, at, at + 4 * w.width, 4 * x, 4 * x + 4);
  }

  lemma OffsetShift(width: nat, x: nat, d: nat, y: nat)
    ensures Offset(width, x + d, y) == Offset(width, x, y) + 4 * d
  {
  }

  /** A mark's box lies in the image. */
  lemma BoxInside(width: nat, height: nat, m: Mark, s: set<nat>)
    requires width > 0 && Describes(width, m, s) && forall i :: i in s ==> i < width * height
    ensures m.minX <= m.maxX < width && m.minY <= m.maxY < height
  {
    hide X, Y;
    var b :| b in s && X(width, b) == m.maxX;
    var d :| d in s && Y(width, d) == m.maxY;
    Split(width, height, b);
    Split(width, height, d);
  }

  /** The crop fails exactly when no pixel is visible. Otherwise it is a window of the image that holds every
      pixel of the first of the largest components: its tight box, padded by 8 and clipped. */
  method CropToPrimaryMark(pixels: seq<Byte>, width: nat, height: nat)
    returns (r: Result<(Window, seq<Byte>), CropError>, ghost seeds: seq<nat>, ghost best: nat, ghost mark: Mark)
    requires |pixels| == 4 * (width * height)
    ensures r.Err? <==> forall i :: 0 <= i < width * height ==> pixels[4 * i + 3] < 8
    ensures r.Ok? ==>
              var start := Visible(pixels, width * height);
              && width > 0 && Leaders(width, start, seeds)
              && (forall j :: 0 <= j < |start| && start[j] ==> exists t :: t in seeds && Connected(width, start, t, j))
              && Largest(width, start, seeds, mark, best)
    ensures r.Ok? ==>
              && mark.minX <= mark.maxX < width && mark.minY <= mark.maxY < height
              && var (w, cropped) := r.value;
                 w == Pad(mark, width, height) && cropped == WindowRows(pixels, width, height, w, w.height)
  {
    hide Leaders, Connected, Component, WindowRows, Describes;
    seeds, best, mark := [], 0, Mark(0, 0, 0, 0, 0);
    if width == 0 {
      NoCells(height);
      r := Err(NoVisibleMark);
      return;
    }
    var start := Visible(pixels, width * height);
    VisibleIs(pixels, width * height);
    var largest;
    largest, seeds, best := LargestMark(width, height, start);
    if largest.None? {
      forall i | 0 <= i < width * height
        ensures pixels[4 * i + 3] < 8
      {
        assert !start[i];
      }
      r := Err(NoVisibleMark);
      return;
    }
    mark := largest.value;
    ComponentInside(width, start, seeds[best]);
    BoxInside(width, height, largest.value, Component(width, start, seeds[best]));
    var w := Pad(largest.value, width, height);
    var cropped := CopyWindow(pixels, width, height, w);
    r := Ok((w, cropped));
  }

  lemma NoCells(height: nat)
    ensures 0 * height == 0
  {
  }

  lemma ComponentInside(width: nat, start: seq<bool>, a: nat)
    requires width > 0
    ensures forall i :: i in Component(width, start, a) ==> i < |start|
  {
  }

  /** The row-by-row copy. */
  method CopyWindow(pixels: seq<Byte>, width: nat, height: nat, w: Window) returns (cropped: seq<Byte>)
    requires |pixels| == 4 * (width * height) && w.width > 0
    requires w.x + w.width <= width && w.y + w.height <= height
    ensures cropped == WindowRows(pixels, width, height, w, w.height)
  {
    cropped := [];
    for y := 0 to w.height
      invariant cropped == WindowRows(pixels, width, height, w, y)
    {
      OffsetInside(width, height, w.x + w.width - 1, w.y + y);
      var source := Offset(width, w.x, w.y + y);
      cropped := cropped + pixels[source..source + 4 * w.width];
    }
  }

  /** Every cell of the described component is inside the window. */
  lemma MarkInside(width: nat, height: nat, start: seq<bool>, seeds: seq<nat>, mark: Mark, best: nat, i: nat)
    requires width > 0 && |start| == width * height && Largest(width, start, seeds, mark, best)
    requires i in Component(width, start, seeds[best])
    ensures mark.minX <= mark.maxX < width && mark.minY <= mark.maxY < height
    ensures var w := Pad(mark, width, height);
            w.x <= X(width, i) < w.x + w.width && w.y <= Y(width, i) < w.y + w.height
  {
    hide X, Y, Connected;
    ComponentInside(width, start, seeds[best]);
    BoxInside(width, height, mark, Component(width, start, seeds[best]));
  }
}
