// Canonical 8.3 names (tools/fat32_image.py, short_name_bytes and short_name_text).

module FatNames {
  import opened Bytes
  import opened FatChain
  import opened FatDirectory

  predicate IsAllowed(b: Byte) {
    0x41 <= b <= 0x5A || 0x30 <= b <= 0x39 || b == 0x5F || b == 0x2D
  }

  predicate AllAllowed(s: Text) {
    forall i :: 0 <= i < |s| ==> IsAllowed(s[i])
  }

  /** The part of a text before its first dot. */
  function BaseOf(s: Text): (b: Text)
    ensures b <= s && DOT !in b && (|b| < |s| ==> s[|b|] == DOT)
  {
    if s == [] || s[0] == DOT then [] else [s[0]] + BaseOf(s[1..])
  }

  /** Encodes an upper-cased name. */
  function ShortNameBytes(upper: Text): (r: Result<seq<Byte>, FatError>)
    ensures r.Ok? ==> |r.value| == 11
  {
    var base := BaseOf(upper);
    var extension := if |base| < |upper| then upper[|base| + 1..] else [];
    if DOT in extension then Err(BadStagedName)
    else if |base| < 1 || |base| > 8 || |extension| > 3 then Err(BadStagedName)
    else if !AllAllowed(base + extension) then Err(BadStagedName)
    else Ok(Padded(base, 8) + Padded(extension, 3))
  }

  /** What the encoder produces: a base of allowed characters, space padded, then an extension. */
  ghost predicate ShortName(name: seq<Byte>) {
    && |name| == 11
    && IsAllowed(name[0])
    && forall i :: 0 <= i < 11 ==> IsAllowed(name[i]) || name[i] == SPACE
  }

  lemma {:induction false} RStripPadded(s: Text, n: nat)
    requires AllAllowed(s) && |s| <= n
    ensures RStrip(Padded(s, n)) == s
    decreases n
  {
    if |s| < n {
      RStripPadded(s, n - 1);
      assert Padded(s, n)[..n - 1] == Padded(s, n - 1);
    } else {
      assert Padded(s, n) == s;
    }
  }

  /** The name text without a trailing dot. */
  function Canonical(upper: Text): (s: Text) {
    if |upper| > 0 && upper[|upper| - 1] == DOT then upper[..|upper| - 1] else upper
  }

  lemma PaddedName(base: Text, extension: Text)
    requires 1 <= |base| <= 8 && |extension| <= 3 && AllAllowed(base) && AllAllowed(extension)
    ensures var name := Padded(base, 8) + Padded(extension, 3);
            && ShortName(name) && IsAscii(name)
            && RStrip(name[..8]) == base && RStrip(name[8..]) == extension
  {
    var name := Padded(base, 8) + Padded(extension, 3);
    RStripPadded(base, 8);
    RStripPadded(extension, 3);
    assert name[..8] == Padded(base, 8) && name[8..] == Padded(extension, 3);
  }

  /** A name is its base, or its base, a dot and its extension. */
  lemma NameParts(upper: Text) returns (base: Text, extension: Text)
    requires ShortNameBytes(upper).Ok?
    ensures 1 <= |base| <= 8 && |extension| <= 3 && AllAllowed(base) && AllAllowed(extension)
    ensures ShortNameBytes(upper) == Ok(Padded(base, 8) + Padded(extension, 3))
    ensures Canonical(upper) == base + if extension == [] then [] else [DOT] + extension
  {
    hide AllAllowed, Padded;
    base := BaseOf(upper);
    extension := if |base| < |upper| then upper[|base| + 1..] else [];
    AllowedParts(base, extension);
    CanonicalParts(base, extension, upper);
  }

  lemma AllowedParts(a: Text, b: Text)
    requires AllAllowed(a + b)
    ensures AllAllowed(a) && AllAllowed(b)
  {
    assert forall i :: 0 <= i < |a| ==> a[i] == (a + b)[i];
    assert forall i :: 0 <= i < |b| ==> b[i] == (a + b)[|a| + i];
  }

  lemma CanonicalParts(base: Text, extension: Text, upper: Text)
    requires DOT !in base && DOT !in extension && |base| > 0
    requires upper == base + [DOT] + extension || (extension == [] && upper == base)
    ensures Canonical(upper) == base + if extension == [] then [] else [DOT] + extension
  {
    if upper == base {
      assert upper[|upper| - 1] in base;
    } else if extension == [] {
      assert Canonical(upper) == base;
    } else {
      assert upper[|upper| - 1] == extension[|extension| - 1];
      assert upper[|upper| - 1] in extension;
    }
  }

  /** The inspector reads an encoded name back as the text it came from, up to one trailing dot. */
  lemma NameRoundTrip(upper: Text)
    requires ShortNameBytes(upper).Ok?
    ensures ShortName(ShortNameBytes(upper).value)
    ensures ShortNameText(ShortNameBytes(upper).value) == Ok(Canonical(upper))
  {
    var base, extension := NameParts(upper);
    PaddedName(base, extension);
  }

  /** Distinct canonical names have distinct encodings, so distinct paths. */
  lemma NamesInjective(a: Text, b: Text)
    requires ShortNameBytes(a).Ok? && ShortNameBytes(b).Ok?
    ensures ShortNameBytes(a) == ShortNameBytes(b) <==> Canonical(a) == Canonical(b)
  {
    NameRoundTrip(a);
    NameRoundTrip(b);
    if Canonical(a) == Canonical(b) {
      CanonicalEncodes(a);
      CanonicalEncodes(b);
    }
  }

  lemma {:induction false} BaseOfPrefix(s: Text, k: nat)
    requires k <= |s| && (forall i :: 0 <= i < k ==> s[i] != DOT) && (k < |s| ==> s[k] == DOT)
    ensures BaseOf(s) == s[..k]
    decreases |s|
  {
    if k > 0 {
      BaseOfPrefix(s[1..], k - 1);
      assert s[..k] == [s[0]] + s[1..][..k - 1];
    }
  }

  lemma CanonicalEncodes(upper: Text)
    requires ShortNameBytes(upper).Ok?
    ensures ShortNameBytes(Canonical(upper)) == ShortNameBytes(upper)
  {
    var base := BaseOf(upper);
    if Canonical(upper) != upper {
      assert Canonical(upper) == base;
      BaseOfPrefix(base, |base|);
      assert base[..|base|] == base;
      assert upper[|base| + 1..] == [];
    }
  }

  /** Facts the directory scan needs about a canonical name. */
  lemma ShortNameFacts(name: seq<Byte>)
    requires ShortName(name)
    ensures name[0] != 0 && name[0] != 0xE5 && !IsDotName(name)
    ensures ShortNameText(name).Ok? && Upper(name) == name
  {
    assert IsAscii(name);
    var base := RStrip(name[..8]);
    assert name[..8][0] == name[0];
    assert DOT_NAME[0] == DOT && DOTDOT_NAME[0] == DOT;
    forall i | 0 <= i < 11
      ensures Upper(name)[i] == name[i]
    {
    }
  }
}
