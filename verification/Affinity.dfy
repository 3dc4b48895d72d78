/**
 Column affinity: the scan of a declared type name by a rolling four-byte hash
 (src/affinity.c), and the type it gives a column before any value has been seen
 (src/SqliteColumnDataSource.cpp).
 */
module Affinity {
  import opened Bytes
  import opened Wrappers

  datatype AffinityType = AffBlob | AffText | AffNumeric | AffInteger | AffReal

  const INT: Bytes := [105, 110, 116]
  const CHAR: Bytes := [99, 104, 97, 114]
  const CLOB: Bytes := [99, 108, 111, 98]
  const TEXT: Bytes := [116, 101, 120, 116]
  const BLOB: Bytes := [98, 108, 111, 98]
  const REAL: Bytes := [114, 101, 97, 108]
  const FLOA: Bytes := [102, 108, 111, 97]
  const DOUB: Bytes := [100, 111, 117, 98]

  /** The 256-entry table of the C source, which changes the ASCII capitals only. */
  function ToLower(b: byte): byte {
    if 65 <= b <= 90 then b + 32 else b
  }

  function Lower(z: Bytes): (l: Bytes)
    ensures |l| == |z| && forall i :: 0 <= i < |z| ==> l[i] == ToLower(z[i])
  {
    seq(|z|, i requires 0 <= i < |z| => ToLower(z[i]))
  }

  predicate EndsAt(z: Bytes, k: nat, pat: Bytes) {
    |pat| <= k <= |z| && z[k - |pat|..k] == pat
  }

  /** `pat` occurs in the first `n` bytes of `z`. */
  predicate OccursWithin(z: Bytes, n: nat, pat: Bytes) {
    exists k: nat :: k <= n && EndsAt(z, k, pat)
  }

  /** The rows of the priority table below INTEGER, over the first `n` bytes. */
  function AffinityBelowInteger(z: Bytes, n: nat): AffinityType {
    if OccursWithin(z, n, CHAR) || OccursWithin(z, n, CLOB) || OccursWithin(z, n, TEXT) then AffText
    else if OccursWithin(z, n, BLOB) then AffBlob
    else if OccursWithin(z, n, REAL) || OccursWithin(z, n, FLOA) || OccursWithin(z, n, DOUB) then AffReal
    else AffNumeric
  }

  /** The letters of a word in lower case stand at position `k` of a name, each in either case. */
  predicate SpelledAt(z: Bytes, k: nat, word: Bytes) {
    k + |word| <= |z| && forall i :: 0 <= i < |word| ==> z[k + i] == word[i] || z[k + i] as int + 32 == word[i]
  }

  predicate Contains(z: Bytes, word: string)
    requires forall i :: 0 <= i < |word| ==> 'a' <= word[i] <= 'z'
  {
    exists k: nat :: k <= |z| && SpelledAt(z, k, Ascii(word))
  }

  /** The documented priority table: a case-independent substring search. */
  function TableAffinity(z: Bytes): AffinityType {
    if Contains(z, "int") then AffInteger
    else if Contains(z, "char") || Contains(z, "clob") || Contains(z, "text") then AffText
    else if Contains(z, "blob") then AffBlob
    else if Contains(z, "real") || Contains(z, "floa") || Contains(z, "doub") then AffReal
    else AffNumeric
  }

  lemma Keywords()
    ensures INT == Ascii("int") && CHAR == Ascii("char") && CLOB == Ascii("clob") && TEXT == Ascii("text")
    ensures BLOB == Ascii("blob") && REAL == Ascii("real") && FLOA == Ascii("floa") && DOUB == Ascii("doub")
  {}

  /** A keyword stands in a name in any case exactly if it occurs in the name in lower case. */
  lemma LowerFinds(z: Bytes, word: string)
    requires forall i :: 0 <= i < |word| ==> 'a' <= word[i] <= 'z'
    ensures Contains(z, word) <==> OccursWithin(Lower(z), |z|, Ascii(word))
  {
    var pat, l := Ascii(word), Lower(z);
    forall k: nat | k + |pat| <= |z| ensures SpelledAt(z, k, pat) <==> EndsAt(l, k + |pat|, pat) {
      if SpelledAt(z, k, pat) {
        assert l[k..k + |pat|] == pat;
      }
      if EndsAt(l, k + |pat|, pat) {
        assert forall i :: 0 <= i < |pat| ==> l[k + i] == l[k..k + |pat|][i] == pat[i];
      }
    }
    if OccursWithin(l, |z|, pat) {
      var k: nat :| k <= |z| && EndsAt(l, k, pat);
      assert SpelledAt(z, k - |pat|, pat);
    }
  }

  lemma SpelledInEitherCase(y: Bytes, z: Bytes, word: string)
    requires SameText(y, z) && forall i :: 0 <= i < |word| ==> 'a' <= word[i] <= 'z'
    ensures Contains(y, word) ==> Contains(z, word)
  {
    if Contains(y, word) {
      var k: nat :| k <= |y| && SpelledAt(y, k, Ascii(word));
      forall i | 0 <= i < |word| ensures z[k + i] == Ascii(word)[i] || z[k + i] as int + 32 == Ascii(word)[i] {
        assert SameLetter(y[k + i], z[k + i]);
      }
      assert SpelledAt(z, k, Ascii(word));
    }
  }

  lemma ContainsInEitherCase(y: Bytes, z: Bytes, word: string)
    requires SameText(y, z) && forall i :: 0 <= i < |word| ==> 'a' <= word[i] <= 'z'
    ensures Contains(y, word) <==> Contains(z, word)
  {
    SpelledInEitherCase(y, z, word);
    SpelledInEitherCase(z, y, word);
  }

  /** Changing the case of any letters of a declared type never changes its affinity. */
  lemma CaseDoesNotMatter(y: Bytes, z: Bytes)
    requires SameText(y, z)
    ensures TableAffinity(y) == TableAffinity(z)
  {
    ContainsInEitherCase(y, z, "int");
    ContainsInEitherCase(y, z, "char");
    ContainsInEitherCase(y, z, "clob");
    ContainsInEitherCase(y, z, "text");
    ContainsInEitherCase(y, z, "blob");
    ContainsInEitherCase(y, z, "real");
    ContainsInEitherCase(y, z, "floa");
    ContainsInEitherCase(y, z, "doub");
  }

  /** The example that the source documents, and the type most often declared. */
  lemma IntegerInCapitals()
    ensures TableAffinity(Ascii("BLOBINT")) == AffInteger && TableAffinity(Ascii("INTEGER")) == AffInteger
  {
    assert SpelledAt(Ascii("BLOBINT"), 4, Ascii("int"));
    assert SpelledAt(Ascii("INTEGER"), 0, Ascii("int"));
  }

  /** Byte `i` of `z`, zero before its start. */
  function At(z: Bytes, i: int): byte
    requires i < |z|
  {
    if i < 0 then 0 else z[i]
  }

  const CHAR_HASH := 0x63686172 // char
  const CLOB_HASH := 0x636c6f62 // clob
  const TEXT_HASH := 0x74657874 // text
  const BLOB_HASH := 0x626c6f62 // blob
  const REAL_HASH := 0x7265616c // real
  const FLOA_HASH := 0x666c6f61 // floa
  const DOUB_HASH := 0x646f7562 // doub
  const INT_HASH := 0x696e74 // int

  /** The last four of the first `k` bytes, as a zero-padded 32-bit number. */
  function Window(z: Bytes, k: nat): nat
    requires k <= |z|
  {
    At(z, k - 4) * 0x1000000 + At(z, k - 3) * 0x10000 + At(z, k - 2) * 0x100 + At(z, k - 1)
  }

  /** The 32-bit hash with one more byte shifted in. */
  function Shift(h: nat, b: byte): nat {
    ((h * 0x100) % 0x1_0000_0000 + b) % 0x1_0000_0000
  }

  /** The hash under the mask 0x00FFFFFF. */
  function LowThree(h: nat): nat {
    h % 0x1000000
  }

  /** The window without its oldest byte, as the mask 0x00FFFFFF leaves it. */
  function ShortWindow(z: Bytes, k: nat): nat
    requires k <= |z|
  {
    At(z, k - 3) * 0x10000 + At(z, k - 2) * 0x100 + At(z, k - 1)
  }

  lemma WindowMasked(z: Bytes, k: nat)
    requires k <= |z|
    ensures LowThree(Window(z, k)) == ShortWindow(z, k)
  {
    assert Window(z, k) == 0x1000000 * At(z, k - 4) + ShortWindow(z, k);
  }

  lemma HashShift(oldest: byte, rest: nat, b: byte)
    requires rest < 0x1000000
    ensures Shift(oldest * 0x1000000 + rest, b) == rest * 0x100 + b
  {
    assert (oldest * 0x1000000 + rest) * 0x100 == 0x1_0000_0000 * oldest + rest * 0x100;
  }

  /** Shifting one more byte into the wrapping 32-bit hash moves the window by one. */
  lemma WindowStep(z: Bytes, k: nat)
    requires k < |z|
    ensures Shift(Window(z, k), z[k]) == Window(z, k + 1)
  {
    HashShift(At(z, k - 4), ShortWindow(z, k), z[k]);
  }

  /** The window equals the packed keyword exactly where a name ends with it. */
  lemma WindowMatches(z: Bytes, k: nat, pat: Bytes)
    requires k <= |z| && |pat| == 4 && NUL !in pat
    ensures Window(z, k) == Window(pat, 4) <==> EndsAt(z, k, pat)
  {
    assert pat[0] in pat;
    if Window(z, k) == Window(pat, 4) {
      assert At(z, k - 4) == pat[0] && At(z, k - 3) == pat[1] && At(z, k - 2) == pat[2] && At(z, k - 1) == pat[3];
      assert z[k - 4..k] == pat;
    }
    if EndsAt(z, k, pat) {
      assert z[k - 4] == pat[0] && z[k - 3] == pat[1] && z[k - 2] == pat[2] && z[k - 1] == pat[3];
    }
  }

  lemma ShortWindowMatches(z: Bytes, k: nat)
    requires k <= |z|
    ensures ShortWindow(z, k) == INT_HASH <==> EndsAt(z, k, INT)
  {
    if ShortWindow(z, k) == INT_HASH {
      assert At(z, k - 3) == INT[0] && At(z, k - 2) == INT[1] && At(z, k - 1) == INT[2];
      assert z[k - 3..k] == INT;
    }
    if EndsAt(z, k, INT) {
      assert z[k - 3] == INT[0] && z[k - 2] == INT[1] && z[k - 1] == INT[2];
    }
  }

  lemma NothingBeforeStart(z: Bytes)
    ensures Window(z, 0) == 0 && AffinityBelowInteger(z, 0) == AffNumeric && !OccursWithin(z, 0, INT)
  {
    assert forall k: nat, pat: Bytes :: k <= 0 && 3 <= |pat| ==> !EndsAt(z, k, pat);
  }

  lemma OccursWithinMonotone(z: Bytes, n: nat, m: nat, pat: Bytes)
    requires n <= m && OccursWithin(z, n, pat)
    ensures OccursWithin(z, m, pat)
  {
    var k: nat :| k <= n && EndsAt(z, k, pat);
    assert k <= m;
  }

  lemma OccursWithinStep(z: Bytes, n: nat, pat: Bytes)
    ensures OccursWithin(z, n + 1, pat) <==> OccursWithin(z, n, pat) || EndsAt(z, n + 1, pat)
  {}

  /** One keyword: it occurs one byte further on exactly if it did before or the hash shows it. */
  lemma KeywordFound(z: Bytes, n: nat, pat: Bytes)
    requires n < |z| && |pat| == 4 && NUL !in pat
    ensures OccursWithin(z, n + 1, pat) <==>
            OccursWithin(z, n, pat) || Window(z, n + 1) == Window(pat, 4)
  {
    WindowMatches(z, n + 1, pat);
    OccursWithinStep(z, n, pat);
  }

  /** What one byte does to the affinity found so far, given the hash that ends with it. */
  function Absorb(aff: AffinityType, h: nat): AffinityType {
    if h == CHAR_HASH || h == CLOB_HASH || h == TEXT_HASH then AffText
    else if h == BLOB_HASH && (aff == AffNumeric || aff == AffReal) then AffBlob
    else if (h == REAL_HASH || h == FLOA_HASH || h == DOUB_HASH) && aff == AffNumeric then AffReal
    else aff
  }

  /** How the table's verdict changes with one more byte, decided by the hash alone. */
  lemma TableStep(z: Bytes, n: nat)
    requires n < |z|
    ensures AffinityBelowInteger(z, n + 1) == Absorb(AffinityBelowInteger(z, n), Window(z, n + 1))
  {
    KeywordFound(z, n, CHAR);
    KeywordFound(z, n, CLOB);
    KeywordFound(z, n, TEXT);
    KeywordFound(z, n, BLOB);
    KeywordFound(z, n, REAL);
    KeywordFound(z, n, FLOA);
    KeywordFound(z, n, DOUB);
  }

  lemma IntegerStep(z: Bytes, n: nat)
    requires n < |z|
    ensures OccursWithin(z, n + 1, INT) <==>
            OccursWithin(z, n, INT) || LowThree(Window(z, n + 1)) == INT_HASH
  {
    WindowMasked(z, n + 1);
    ShortWindowMatches(z, n + 1);
    OccursWithinStep(z, n, INT);
  }

  lemma OtherKeywords(h: nat)
    ensures h in {CHAR_HASH, CLOB_HASH, TEXT_HASH, BLOB_HASH, REAL_HASH, FLOA_HASH, DOUB_HASH} ==>
              LowThree(h) != INT_HASH
  {}

  /** Once "int" has been seen the answer is INTEGER, whatever follows. */
  lemma ScanEnd(z: Bytes, n: nat)
    requires n <= |z| && (n == |z| || OccursWithin(Lower(z), n, INT))
    ensures TableAffinity(z) ==
            if OccursWithin(Lower(z), n, INT) then AffInteger else AffinityBelowInteger(Lower(z), n)
  {
    hide OccursWithin, Contains, Lower;
    Keywords();
    LowerFinds(z, "int");
    LowerFinds(z, "char");
    LowerFinds(z, "clob");
    LowerFinds(z, "text");
    LowerFinds(z, "blob");
    LowerFinds(z, "real");
    LowerFinds(z, "floa");
    LowerFinds(z, "doub");
    if OccursWithin(Lower(z), n, INT) {
      OccursWithinMonotone(Lower(z), n, |z|, INT);
    }
  }

  /**
   The scan of src/affinity.c.  `name` is a C string, so it holds no NUL.  The wrapping
   32-bit hash with its early exit computes the documented priority search.
   */
  method ScanAffinity(name: Option<Bytes>) returns (aff: AffinityType)
    requires name.Some? ==> NUL !in name.value
    ensures aff == if name.None? then AffNumeric else TableAffinity(name.value)
  {
    hide Window, Shift, LowThree, AffinityBelowInteger, OccursWithin, TableAffinity, ToLower, Lower;
    aff := AffNumeric;
    if name.None? {
      return;
    }
    var z := name.value;
    ghost var l := Lower(z);
    var h: nat := 0;
    var i := 0;
    NothingBeforeStart(l);
    while i < |z|
      invariant 0 <= i <= |z|
      invariant h == Window(l, i)
      invariant !OccursWithin(l, i, INT)
      invariant aff == AffinityBelowInteger(l, i)
    {
      WindowStep(l, i);
      TableStep(l, i);
      IntegerStep(l, i);
      h := Shift(h, ToLower(z[i]));
      i := i + 1;
      OtherKeywords(h);
      if h == CHAR_HASH {
        aff := AffText;
      } else if h == CLOB_HASH {
        aff := AffText;
      } else if h == TEXT_HASH {
        aff := AffText;
      } else if h == BLOB_HASH && (aff == AffNumeric || aff == AffReal) {
        aff := AffBlob;
      } else if h == REAL_HASH && aff == AffNumeric {
        aff := AffReal;
      } else if h == FLOA_HASH && aff == AffNumeric {
        aff := AffReal;
      } else if h == DOUB_HASH && aff == AffNumeric {
        aff := AffReal;
      } else if LowThree(h) == INT_HASH {
        aff := AffInteger;
        break;
      }
    }
    ScanEnd(z, i);
  }
}
