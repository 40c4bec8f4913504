// Byte-string order and stable sorting by a byte-string key, as `sorted(..., key=...)` does it.

module Sorting {
  import opened Bytes

  /** `a < b` on bytes. */
  predicate Less(a: seq<Byte>, b: seq<Byte>) {
    if b == [] then false
    else if a == [] then true
    else a[0] < b[0] || (a[0] == b[0] && Less(a[1..], b[1..]))
  }

  /** `a` comes first at the first byte where the two differ, or ends there. */
  ghost predicate Before(a: seq<Byte>, b: seq<Byte>, k: nat) {
    k <= |a| && k < |b| && (forall i :: 0 <= i < k ==> a[i] == b[i]) && (k == |a| || a[k] < b[k])
  }

  lemma {:induction false} LessIff(a: seq<Byte>, b: seq<Byte>)
    ensures Less(a, b) <==> exists k :: Before(a, b, k)
    decreases |a|
  {
    if b == [] {
    } else if a == [] {
      assert Before(a, b, 0);
    } else if a[0] != b[0] {
      if a[0] < b[0] {
        assert Before(a, b, 0);
      }
    } else {
      LessIff(a[1..], b[1..]);
      if k: nat :| Before(a[1..], b[1..], k) {
        assert forall i :: 0 < i <= k ==> a[i] == a[1..][i - 1] && b[i] == b[1..][i - 1];
        assert Before(a, b, k + 1);
      }
      if k: nat :| Before(a, b, k) {
        assert k > 0;
        assert Before(a[1..], b[1..], k - 1);
      }
    }
  }

  lemma {:induction false} LessTrichotomy(a: seq<Byte>, b: seq<Byte>)
    ensures !(Less(a, b) && Less(b, a)) && !Less(a, a)
    ensures Less(a, b) || a == b || Less(b, a)
    decreases |a|
  {
    if a != [] {
      LessTrichotomy(a[1..], a[1..]);
      if b != [] {
        LessTrichotomy(a[1..], b[1..]);
        assert a == [a[0]] + a[1..] && b == [b[0]] + b[1..];
      }
    }
  }

  lemma {:induction false} LessTransitive(a: seq<Byte>, b: seq<Byte>, c: seq<Byte>)
    requires Less(a, b) && Less(b, c)
    ensures Less(a, c)
    decreases |a|
  {
    if a != [] && a[0] == b[0] == c[0] {
      LessTransitive(a[1..], b[1..], c[1..]);
    }
  }

  ghost predicate Sorted<T>(key: T -> seq<Byte>, s: seq<T>) {
    forall i, j :: 0 <= i < j < |s| ==> !Less(key(s[j]), key(s[i]))
  }

  ghost predicate StrictlySorted<T>(key: T -> seq<Byte>, s: seq<T>) {
    forall i, j :: 0 <= i < j < |s| ==> Less(key(s[i]), key(s[j]))
  }

  ghost predicate DistinctKeys<T>(key: T -> seq<Byte>, s: seq<T>) {
    forall i, j :: 0 <= i < j < |s| ==> key(s[i]) != key(s[j])
  }

  function Insert<T>(key: T -> seq<Byte>, x: T, s: seq<T>): (r: seq<T>)
    ensures multiset(r) == multiset{x} + multiset(s)
    ensures |r| == |s| + 1
  {
    if s == [] || !Less(key(s[0]), key(x)) then
      assert [x] + s == [x] + s && multiset([x] + s) == multiset{x} + multiset(s);
      [x] + s
    else
      assert s == [s[0]] + s[1..];
      [s[0]] + Insert(key, x, s[1..])
  }

  function Sort<T>(key: T -> seq<Byte>, s: seq<T>): (r: seq<T>)
    ensures multiset(r) == multiset(s)
    ensures |r| == |s|
  {
    if s == [] then [] else
      assert s == [s[0]] + s[1..];
      Insert(key, s[0], Sort(key, s[1..]))
  }

  lemma {:induction false} InsertSorted<T>(key: T -> seq<Byte>, x: T, s: seq<T>)
    requires Sorted(key, s)
    ensures Sorted(key, Insert(key, x, s))
    decreases |s|
  {
    var r := Insert(key, x, s);
    if s == [] {
    } else if !Less(key(s[0]), key(x)) {
      forall j | 1 <= j < |r|
        ensures !Less(key(r[j]), key(x))
      {
        assert r[j] == s[j - 1];
        LessTrichotomy(key(s[0]), key(x));
        if Less(key(r[j]), key(x)) && key(s[0]) != key(x) {
          LessTransitive(key(r[j]), key(x), key(s[0]));
        }
      }
    } else {
      InsertSorted(key, x, s[1..]);
      var t := Insert(key, x, s[1..]);
      forall j | 0 <= j < |t|
        ensures !Less(key(t[j]), key(s[0]))
      {
        assert t[j] in multiset(t);
        if t[j] == x {
          LessTrichotomy(key(s[0]), key(x));
        } else {
          assert t[j] in s[1..];
        }
      }
    }
  }

  lemma {:induction false} SortSorts<T>(key: T -> seq<Byte>, s: seq<T>)
    ensures Sorted(key, Sort(key, s))
    decreases |s|
  {
    if s != [] {
      SortSorts(key, s[1..]);
      InsertSorted(key, s[0], Sort(key, s[1..]));
    }
  }

  /** Distinct keys stay distinct in any order. */
  lemma DistinctPermuted<T>(key: T -> seq<Byte>, s: seq<T>, r: seq<T>)
    requires DistinctKeys(key, s) && multiset(s) == multiset(r)
    ensures DistinctKeys(key, r)
  {
    forall i, j | 0 <= i < j < |r|
      ensures key(r[i]) != key(r[j])
    {
      assert r[i] in multiset(s) && r[j] in multiset(s);
      if r[i] == r[j] {
        TwiceInMultiset(r, i, j);
        OnceInMultiset(key, s, r[i]);
      }
    }
  }

  lemma TwiceInMultiset<T>(r: seq<T>, i: nat, j: nat)
    requires i < j < |r| && r[i] == r[j]
    ensures multiset(r)[r[i]] >= 2
  {
    assert r == r[..i] + [r[i]] + r[i + 1..j] + [r[j]] + r[j + 1..];
  }

  lemma {:induction false} OnceInMultiset<T>(key: T -> seq<Byte>, s: seq<T>, x: T)
    requires DistinctKeys(key, s)
    ensures multiset(s)[x] <= 1
    decreases |s|
  {
    if s != [] {
      assert s == [s[0]] + s[1..];
      OnceInMultiset(key, s[1..], x);
      assert forall k :: 0 <= k < |s[1..]| ==> key(s[1..][k]) != key(s[0]);
    }
  }

  lemma SortStrict<T>(key: T -> seq<Byte>, s: seq<T>)
    requires DistinctKeys(key, s)
    ensures StrictlySorted(key, Sort(key, s)) && DistinctKeys(key, Sort(key, s))
  {
    SortSorts(key, s);
    DistinctPermuted(key, s, Sort(key, s));
    var r := Sort(key, s);
    forall i, j | 0 <= i < j < |r|
      ensures Less(key(r[i]), key(r[j]))
    {
      LessTrichotomy(key(r[i]), key(r[j]));
    }
  }

  /** A strictly sorted arrangement is unique. */
  lemma {:induction false} SortedUnique<T>(key: T -> seq<Byte>, a: seq<T>, b: seq<T>)
    requires StrictlySorted(key, a) && StrictlySorted(key, b) && multiset(a) == multiset(b)
    ensures a == b
    decreases |a|
  {
    hide StrictlySorted;
    SameLength(a, b);
    if a != [] {
      SameFirst(key, a, b);
      TailSorted(key, a);
      TailSorted(key, b);
      TailElements(a);
      TailElements(b);
      SortedUnique(key, a[1..], b[1..]);
      assert a == [a[0]] + a[1..] && b == [b[0]] + b[1..];
    }
  }

  lemma SameFirst<T>(key: T -> seq<Byte>, a: seq<T>, b: seq<T>)
    requires StrictlySorted(key, a) && StrictlySorted(key, b) && multiset(a) == multiset(b) && a != [] && b != []
    ensures a[0] == b[0]
  {
    hide StrictlySorted;
    FirstIsLeast(key, a, b);
    FirstIsLeast(key, b, a);
    LessTrichotomy(key(a[0]), key(b[0]));
  }

  lemma TailSorted<T>(key: T -> seq<Byte>, a: seq<T>)
    requires StrictlySorted(key, a) && a != []
    ensures StrictlySorted(key, a[1..])
  {
  }

  lemma TailElements<T>(a: seq<T>)
    requires a != []
    ensures multiset(a[1..]) == multiset(a) - multiset{a[0]}
  {
    assert a == [a[0]] + a[1..];
  }

  lemma SameLength<T>(a: seq<T>, b: seq<T>)
    requires multiset(a) == multiset(b)
    ensures |a| == |b|
  {
    assert |a| == |multiset(a)| == |multiset(b)| == |b|;
  }

  lemma FirstIsLeast<T>(key: T -> seq<Byte>, a: seq<T>, b: seq<T>)
    requires StrictlySorted(key, a) && multiset(a) == multiset(b) && a != [] && b != []
    ensures a[0] == b[0] || Less(key(a[0]), key(b[0]))
  {
    assert b[0] in multiset(b);
    var j :| 0 <= j < |a| && a[j] == b[0];
  }
}
