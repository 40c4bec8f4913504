// Bytes, integer codecs, slice assignment and the failure type shared by every model.

module Bytes {

  type Byte = b: int | 0 <= b < 256

  /** The outcome of an operation that may raise: a value, or the error that stopped it. */
  datatype Result<+T, +E> = Ok(value: T) | Err(error: E) {
    predicate IsFailure() {
      Err?
    }

    function PropagateFailure<U>(): Result<U, E>
      requires Err?
    {
      Err(error)
    }

    function Extract(): T
      requires Ok?
    {
      value
    }
  }

  // Little-endian and big-endian reads at an offset.

  function U16(s: seq<Byte>, at: nat): (v: nat)
    requires at + 2 <= |s|
    ensures v < 0x1_0000
  {
    s[at] as int + 0x100 * (s[at + 1] as int)
  }

  function U32(s: seq<Byte>, at: nat): (v: nat)
    requires at + 4 <= |s|
    ensures v < 0x1_0000_0000
  {
    s[at] as int + 0x100 * (s[at + 1] as int) + 0x1_0000 * (s[at + 2] as int) + 0x100_0000 * (s[at + 3] as int)
  }

  function U16Be(s: seq<Byte>, at: nat): (v: nat)
    requires at + 2 <= |s|
    ensures v < 0x1_0000
  {
    0x100 * (s[at] as int) + s[at + 1] as int
  }

  function U32Be(s: seq<Byte>, at: nat): (v: nat)
    requires at + 4 <= |s|
    ensures v < 0x1_0000_0000
  {
    0x100_0000 * (s[at] as int) + 0x1_0000 * (s[at + 1] as int) + 0x100 * (s[at + 2] as int) + s[at + 3] as int
  }

  // The matching encoders; each is the inverse of the read above it.

  function Le16(v: nat): (s: seq<Byte>)
    requires v < 0x1_0000
    ensures |s| == 2 && U16(s, 0) == v
  {
    [v % 0x100, v / 0x100]
  }

  lemma Digits(v: nat)
    ensures v == v % 0x100 + 0x100 * (v / 0x100 % 0x100) + 0x1_0000 * (v / 0x1_0000 % 0x100) + 0x100_0000 * (v / 0x100_0000)
  {
    var w := v / 0x100;
    var x := w / 0x100;
    assert v == v % 0x100 + 0x100 * w && w == w % 0x100 + 0x100 * x && x == x % 0x100 + 0x100 * (x / 0x100);
    assert v / 0x1_0000 == x && v / 0x100_0000 == x / 0x100;
  }

  function Le32(v: nat): (s: seq<Byte>)
    requires v < 0x1_0000_0000
    ensures |s| == 4 && U32(s, 0) == v
  {
    Digits(v);
    [v % 0x100, v / 0x100 % 0x100, v / 0x1_0000 % 0x100, v / 0x100_0000]
  }

  function Be16(v: nat): (s: seq<Byte>)
    requires v < 0x1_0000
    ensures |s| == 2 && U16Be(s, 0) == v
  {
    [v / 0x100, v % 0x100]
  }

  function Be32(v: nat): (s: seq<Byte>)
    requires v < 0x1_0000_0000
    ensures |s| == 4 && U32Be(s, 0) == v
  {
    Digits(v);
    [v / 0x100_0000, v / 0x1_0000 % 0x100, v / 0x100 % 0x100, v % 0x100]
  }

  function Zeros(n: nat): (s: seq<Byte>)
    ensures |s| == n
    ensures forall k :: 0 <= k < n ==> s[k] == 0
  {
    seq(n, _ => 0)
  }

  /** Slice assignment of an equally long slice: `s[at:at + len(b)] = b`. */
  function Patch(s: seq<Byte>, at: nat, b: seq<Byte>): (r: seq<Byte>)
    requires at + |b| <= |s|
    ensures |r| == |s|
    ensures forall k {:trigger r[k]} :: 0 <= k < |s| ==> r[k] == if at <= k < at + |b| then b[k - at] else s[k]
  {
    s[..at] + b + s[at + |b|..]
  }

  /** A slice away from a patch is unchanged. */
  lemma PatchAway(s: seq<Byte>, at: nat, b: seq<Byte>, lo: nat, hi: nat)
    requires at + |b| <= |s| && lo <= hi <= |s| && (hi <= at || at + |b| <= lo)
    ensures Patch(s, at, b)[lo..hi] == s[lo..hi]
  {
  }

  /** A slice around a patch is the patched slice. */
  lemma PatchInside(s: seq<Byte>, at: nat, b: seq<Byte>, lo: nat, hi: nat)
    requires lo <= at && at + |b| <= hi <= |s|
    ensures Patch(s, at, b)[lo..hi] == Patch(s[lo..hi], at - lo, b)
  {
  }

  lemma AppendedSlice(a: seq<Byte>, b: seq<Byte>)
    ensures (a + b)[|a|..|a| + |b|] == b && (a + b)[..|a| + |b|] == a + b
  {
  }

  lemma SliceOfSlice(s: seq<Byte>, lo: nat, hi: nat, a: nat, b: nat)
    requires lo <= hi <= |s| && a <= b <= hi - lo
    ensures s[lo..hi][a..b] == s[lo + a..lo + b]
  {
    var slice := s[lo..hi];
    var l, r := slice[a..b], s[lo + a..lo + b];
    assert |l| == |r|;
    forall i | 0 <= i < |l|
      ensures l[i] == r[i]
    {
      assert l[i] == slice[a + i] == s[lo + (a + i)];
    }
  }
}
