// The Internet checksum (RFC 1071) as the packet builders and the auditor compute it
// (tools/network_fixture.py, tools/network_packet_audit.py).

module InternetChecksum {
  import opened Bytes

  const ONES := 0xFFFF

  /** The sum of the big-endian 16-bit words; an odd last byte is padded with zero. */
  function WordSum(data: seq<Byte>): (sum: nat) {
    if data == [] then 0
    else if |data| == 1 then 0x100 * (data[0] as int)
    else U16Be(data, 0) + WordSum(data[2..])
  }

  /** End-around carries, until the sum fits 16 bits. The residue modulo 65535 survives, and zero stays apart. */
  function Fold(total: nat): (r: nat)
    ensures r <= ONES && r % ONES == total % ONES && (r == 0 <==> total == 0)
  {
    if total <= ONES then total else
    FoldStep(total);
    Fold(total % 0x1_0000 + total / 0x1_0000)
  }

  lemma FoldStep(total: nat)
    requires total > ONES
    ensures 0 < total % 0x1_0000 + total / 0x1_0000 < total
    ensures (total % 0x1_0000 + total / 0x1_0000) % ONES == total % ONES
  {
    var carry := total / 0x1_0000;
    assert total == (total % 0x1_0000 + carry) + ONES * carry;
    AddMultiple(total % 0x1_0000 + carry, carry);
  }

  lemma {:induction false} AddMultiple(x: int, k: nat)
    ensures (x + ONES * k) % ONES == x % ONES
    decreases k
  {
    if k > 0 {
      AddMultiple(x, k - 1);
    }
  }

  function InternetSum(data: seq<Byte>): (c: nat)
    ensures c <= ONES
  {
    ONES - Fold(WordSum(data))
  }

  /** The source's loops: pad, sum the words, fold the carries, complement. */
  method Checksum(data: seq<Byte>) returns (c: nat)
    ensures c == InternetSum(data)
  {
    hide WordSum, Fold, U16Be;
    var padded := if |data| % 2 == 1 then data + [0] else data;
    if |data| % 2 == 1 {
      PaddingAddsNothing(data);
    }
    var total: nat, at := 0, 0;
    while at < |padded|
      invariant at <= |padded| && at % 2 == 0
      invariant total + WordSum(padded[at..]) == WordSum(data)
    {
      NextWord(padded, at);
      total := total + U16Be(padded, at);
      at := at + 2;
    }
    NoWords(padded);
    while total > ONES
      invariant Fold(total) == Fold(WordSum(data))
    {
      FoldStep(total);
      FoldUnfolds(total);
      total := total % 0x1_0000 + total / 0x1_0000;
    }
    FoldUnfolds(total);
    c := ONES - total;
  }

  lemma NextWord(padded: seq<Byte>, at: nat)
    requires at + 2 <= |padded|
    ensures WordSum(padded[at..]) == U16Be(padded, at) + WordSum(padded[at + 2..])
  {
    assert padded[at..][2..] == padded[at + 2..];
  }

  lemma NoWords(padded: seq<Byte>)
    ensures WordSum(padded[|padded|..]) == 0
  {
  }

  lemma FoldUnfolds(total: nat)
    ensures Fold(total) == if total <= ONES then total else Fold(total % 0x1_0000 + total / 0x1_0000)
  {
  }

  lemma {:induction false} PaddingAddsNothing(data: seq<Byte>)
    requires |data| % 2 == 1
    ensures WordSum(data + [0]) == WordSum(data)
    decreases |data|
  {
    if |data| > 1 {
      PaddingAddsNothing(data[2..]);
      assert (data + [0])[2..] == data[2..] + [0];
    } else {
      assert (data + [0])[2..] == [];
    }
  }

  /** What the receiver's test means: the words sum to a nonzero multiple of 65535. */
  lemma VerifiesIff(data: seq<Byte>)
    ensures InternetSum(data) == 0 <==> WordSum(data) > 0 && WordSum(data) % ONES == 0
  {
  }

  lemma {:induction false} SumSplits(a: seq<Byte>, b: seq<Byte>)
    requires |a| % 2 == 0
    ensures WordSum(a + b) == WordSum(a) + WordSum(b)
    decreases |a|
  {
    if a == [] {
      assert a + b == b;
    } else {
      SumSplits(a[2..], b);
      assert (a + b)[2..] == a[2..] + b;
    }
  }

  lemma OneWord(word: seq<Byte>)
    requires |word| == 2
    ensures WordSum(word) == U16Be(word, 0)
  {
    assert word[2..] == [];
  }

  /** Writing `v` into a zero word at an even offset adds `v` to the sum. */
  lemma WordAdds(data: seq<Byte>, at: nat, v: nat)
    requires at % 2 == 0 && at + 2 <= |data| && U16Be(data, at) == 0 && v <= ONES
    ensures WordSum(Patch(data, at, Be16(v))) == WordSum(data) + v
  {
    hide WordSum, Patch, Be16;
    var word := data[at..at + 2];
    PatchParts(data, at, word);
    PatchParts(data, at, Be16(v));
    ThreeParts(data[..at], word, data[at + 2..]);
    ThreeParts(data[..at], Be16(v), data[at + 2..]);
  }

  lemma PatchParts(data: seq<Byte>, at: nat, word: seq<Byte>)
    requires at + 2 <= |data| && |word| == 2
    ensures Patch(data, at, word) == data[..at] + (word + data[at + 2..])
    ensures word == data[at..at + 2] ==> Patch(data, at, word) == data
  {
  }

  lemma ThreeParts(a: seq<Byte>, word: seq<Byte>, b: seq<Byte>)
    requires |a| % 2 == 0 && |word| == 2
    ensures WordSum(a + (word + b)) == WordSum(a) + U16Be(word, 0) + WordSum(b)
  {
    hide WordSum;
    SumSplits(a, word + b);
    SumSplits(word, b);
    OneWord(word);
  }

  /** Filling a zero checksum word with the checksum of the data makes the data verify. */
  lemma FilledVerifies(data: seq<Byte>, at: nat)
    requires at % 2 == 0 && at + 2 <= |data| && U16Be(data, at) == 0
    ensures InternetSum(Patch(data, at, Be16(InternetSum(data)))) == 0
  {
    WordAdds(data, at, InternetSum(data));
    var sum := WordSum(data);
    Complement(sum, Fold(sum));
  }

  lemma Complement(sum: nat, folded: nat)
    requires folded <= ONES && folded % ONES == sum % ONES && (folded == 0 <==> sum == 0)
    ensures sum + (ONES - folded) > 0 && (sum + (ONES - folded)) % ONES == 0
  {
    var k := sum / ONES;
    assert sum == ONES * k + sum % ONES;
    assert ONES - folded == if folded == ONES then 0 else ONES - sum % ONES;
    if folded == ONES {
      assert sum % ONES == 0;
    } else {
      AddMultiple(ONES, k);
      assert sum + (ONES - folded) == ONES + ONES * k;
    }
  }

  /** So does the other representation of zero, which UDP must use (RFC 768). */
  lemma OnesVerify(data: seq<Byte>, at: nat)
    requires at % 2 == 0 && at + 2 <= |data| && U16Be(data, at) == 0 && InternetSum(data) == 0
    ensures InternetSum(Patch(data, at, Be16(ONES))) == 0
  {
    WordAdds(data, at, ONES);
    AddMultiple(WordSum(data), 1);
  }

  /** A checksum word that is off by less than 65535 never verifies. */
  lemma WrongNeverVerifies(data: seq<Byte>, at: nat, v: nat)
    requires at % 2 == 0 && at + 2 <= |data| && U16Be(data, at) == 0 && v <= ONES
    requires var right := InternetSum(data); v != right && v - right < ONES && right - v < ONES
    ensures InternetSum(Patch(data, at, Be16(v))) != 0
  {
    hide WordSum;
    var right := InternetSum(data);
    WordAdds(data, at, v);
    WordAdds(data, at, right);
    FilledVerifies(data, at);
    CloseMultiples(WordSum(data) + v, WordSum(data) + right);
  }

  lemma CloseMultiples(a: nat, b: nat)
    requires b % ONES == 0 && a != b && a - b < ONES && b - a < ONES
    ensures a % ONES != 0
  {
  }
}
