/**
 * The word-parallel ("SIMD within a register") computation of the Hamming
 * distance in `src/matcher.rs`: eight bytes are packed into a `u64`, mismatching
 * and ambiguous lanes are flagged with bit tricks, and the flagged lanes are
 * counted with a multiply-and-shift.
 *
 * Words are packed little-endian (byte `i` of a block is lane `i`), which is
 * what `u64::from_ne_bytes` does on the usual targets. Counting lanes does not
 * depend on the order; the carry corner case of `is_n_mask` does (see
 * `SwarOvercountsAfterN`).
 */
module Swar {
  import opened Bytes
  import opened Matcher

  // The word constants are written as literals: the solver sees through a
  // literal at once, while a named constant would turn the multiplication in
  // `CountNonzeroBytes` into a product of two unknowns.

  /** Byte lane `i` of a word, as a word. */
  function Lane(x: bv64, i: nat): bv64
    requires i < 8
  {
    if i == 0 then x & 0xFF
    else if i == 1 then (x >> 8) & 0xFF
    else if i == 2 then (x >> 16) & 0xFF
    else if i == 3 then (x >> 24) & 0xFF
    else if i == 4 then (x >> 32) & 0xFF
    else if i == 5 then (x >> 40) & 0xFF
    else if i == 6 then (x >> 48) & 0xFF
    else (x >> 56) & 0xFF
  }

  /** Eight bytes as one word, byte `i` in lane `i`. */
  function Pack(s: seq<Byte>): (x: bv64)
    requires |s| == 8
  {
    // Dafny's `|` binds tighter than `<<`, hence the parentheses.
    (s[0] as bv64)
    | ((s[1] as bv64) << 8)
    | ((s[2] as bv64) << 16)
    | ((s[3] as bv64) << 24)
    | ((s[4] as bv64) << 32)
    | ((s[5] as bv64) << 40)
    | ((s[6] as bv64) << 48)
    | ((s[7] as bv64) << 56)
  }

  lemma PackLanes(s: seq<Byte>)
    requires |s| == 8
    ensures forall i :: 0 <= i < 8 ==> Lane(Pack(s), i) == s[i] as bv64
  {
    var x := Pack(s);
    forall i | 0 <= i < 8
      ensures Lane(x, i) == s[i] as bv64
    {
      if i == 0 {} else if i == 1 {} else if i == 2 {} else if i == 3 {}
      else if i == 4 {} else if i == 5 {} else if i == 6 {} else {}
    }
  }

  /** The number of non-zero lanes among lanes `0..k`. */
  function NonzeroLanes(x: bv64, k: nat): (n: nat)
    requires k <= 8
    ensures n <= k
  {
    if k == 0 then 0
    else NonzeroLanes(x, k - 1) + (if Lane(x, k - 1) != 0 then 1 else 0)
  }

  /** Lanes `0..k` summed as a word. */
  function LaneSum(x: bv64, k: nat): bv64
    requires k <= 8
  {
    if k == 0 then 0 else LaneSum(x, k - 1) + Lane(x, k - 1)
  }

  /** Steps 1 and 2 of `count_nonzero_bytes`: each lane becomes 1 if it was non-zero, else 0. */
  function MarkNonzeroLanes(x: bv64): (y: bv64)
    ensures y & !0x0101_0101_0101_0101 == 0
    ensures forall i :: 0 <= i < 8 ==> Lane(y, i) == if Lane(x, i) != 0 then 1 else 0
  {
    var x1 := x | (x >> 4);
    var x2 := x1 | (x1 >> 2);
    var x3 := x2 | (x2 >> 1);
    x3 & 0x0101_0101_0101_0101
  }

  /** Step 3 of `count_nonzero_bytes`: multiplying by 0x0101_0101_0101_0101 sums the 0/1 lanes into the top lane. */
  lemma HorizontalSum(y: bv64)
    requires y & !0x0101_0101_0101_0101 == 0
    ensures (y * 0x0101_0101_0101_0101) >> 56 == LaneSum(y, 8)
  {
    assert LaneSum(y, 1) == Lane(y, 0);
    assert LaneSum(y, 2) == LaneSum(y, 1) + Lane(y, 1);
    assert LaneSum(y, 3) == LaneSum(y, 2) + Lane(y, 2);
    assert LaneSum(y, 4) == LaneSum(y, 3) + Lane(y, 3);
    assert LaneSum(y, 5) == LaneSum(y, 4) + Lane(y, 4);
    assert LaneSum(y, 6) == LaneSum(y, 5) + Lane(y, 5);
    assert LaneSum(y, 7) == LaneSum(y, 6) + Lane(y, 6);
    assert LaneSum(y, 8) == LaneSum(y, 7) + Lane(y, 7);
  }

  lemma SmallSum(a: bv64, b: bv64)
    requires a <= 1 && b as int <= 7
    ensures (b + a) as int == b as int + a as int
    ensures a as int == if a != 0 then 1 else 0
  {
    assert b <= 7;
    if a == 1 {
      if b == 0 {} else if b == 1 {} else if b == 2 {} else if b == 3 {}
      else if b == 4 {} else if b == 5 {} else if b == 6 {} else {}
    }
  }

  /** For a word of 0/1 lanes, the word sum of the lanes is the number of non-zero lanes. */
  lemma {:induction false} LaneSumCountsLanes(y: bv64, k: nat)
    requires k <= 8
    requires forall i :: 0 <= i < 8 ==> Lane(y, i) <= 1
    ensures LaneSum(y, k) as int == NonzeroLanes(y, k)
  {
    if k > 0 {
      LaneSumCountsLanes(y, k - 1);
      SmallSum(Lane(y, k - 1), LaneSum(y, k - 1));
    }
  }

  /** Lanes of `y` are non-zero exactly where lanes of `x` are: both count the same. */
  lemma {:induction false} SameNonzeroLanes(x: bv64, y: bv64, k: nat)
    requires k <= 8
    requires forall i :: 0 <= i < 8 ==> (Lane(x, i) != 0 <==> Lane(y, i) != 0)
    ensures NonzeroLanes(x, k) == NonzeroLanes(y, k)
  {
    if k > 0 {
      SameNonzeroLanes(x, y, k - 1);
    }
  }

  /** `count_nonzero_bytes`: the number of non-zero byte lanes of `x`, between 0 and 8. */
  function CountNonzeroBytes(x: bv64): (n: nat)
    ensures n == NonzeroLanes(x, 8)
    ensures n <= 8
  {
    var y := MarkNonzeroLanes(x);
    HorizontalSum(y);
    LaneSumCountsLanes(y, 8);
    SameNonzeroLanes(x, y, 8);
    ((y * 0x0101_0101_0101_0101) >> 56) as nat
  }

  /** `is_n_mask`: the classic "which lanes are zero" trick applied to `x ^ 0x4E4E_4E4E_4E4E_4E4E`. */
  function IsNMask(x: bv64): (mask: bv64)
    ensures mask & !0x8080_8080_8080_8080 == 0
  {
    var diff := x ^ 0x4E4E_4E4E_4E4E_4E4E;
    (diff - 0x0101_0101_0101_0101) & !diff & 0x8080_8080_8080_8080
  }

  /** Every `N` lane is flagged, whatever the other lanes hold. */
  lemma IsNMaskFlagsEveryN(x: bv64)
    ensures forall i :: 0 <= i < 8 && Lane(x, i) == N as bv64 ==> Lane(IsNMask(x), i) == 0x80
  {
  }

  /**
   * Without the byte 0x4F (`O`) the mask is exact: 0x80 in the `N` lanes and 0
   * elsewhere. (A 0x4F lane just above an `N` lane receives the borrow of the
   * subtraction and is flagged too.)
   */
  lemma IsNMaskExact(x: bv64)
    requires forall i :: 0 <= i < 8 ==> Lane(x, i) != 0x4F
    ensures forall i :: 0 <= i < 8 ==> Lane(IsNMask(x), i) == if Lane(x, i) == N as bv64 then 0x80 else 0
  {
  }

  /** The word whose non-zero lanes the block step counts: differing lanes or `N` in either word. */
  function FlaggedLanes(c1: bv64, c2: bv64): bv64 {
    (c1 ^ c2) | (IsNMask(c1) | IsNMask(c2))
  }

  /** The distance of one 8-byte block as the source computes it. */
  function BlockDistance(a: seq<Byte>, b: seq<Byte>): (d: nat)
    requires |a| == 8 && |b| == 8
    ensures HammingDistance(a, b) <= d <= 8
  {
    BlockFlagsEveryMismatch(a, b);
    LanesVersusMismatches(FlaggedLanes(Pack(a), Pack(b)), a, b, 8);
    assert a[..8] == a && b[..8] == b;
    CountNonzeroBytes(FlaggedLanes(Pack(a), Pack(b)))
  }

  /** Counting lanes that are flagged at least where (or exactly where) the bytes mismatch. */
  lemma {:induction false} LanesVersusMismatches(x: bv64, a: seq<Byte>, b: seq<Byte>, k: nat)
    requires |a| == 8 && |b| == 8 && k <= 8
    requires forall i :: 0 <= i < 8 && Mismatch(a[i], b[i]) ==> Lane(x, i) != 0
    ensures NonzeroLanes(x, k) >= HammingDistance(a[..k], b[..k])
    ensures (forall i :: 0 <= i < 8 && Lane(x, i) != 0 ==> Mismatch(a[i], b[i]))
      ==> NonzeroLanes(x, k) == HammingDistance(a[..k], b[..k])
  {
    if k > 0 {
      LanesVersusMismatches(x, a, b, k - 1);
      assert a[..k][..k - 1] == a[..k - 1] && b[..k][..k - 1] == b[..k - 1];
    }
  }

  /** Every mismatching position of a block is flagged. */
  lemma BlockFlagsEveryMismatch(a: seq<Byte>, b: seq<Byte>)
    requires |a| == 8 && |b| == 8
    ensures forall i :: 0 <= i < 8 && Mismatch(a[i], b[i]) ==> Lane(FlaggedLanes(Pack(a), Pack(b)), i) != 0
  {
    PackLanes(a);
    PackLanes(b);
    WordFlagsEveryMismatch(a, b, Pack(a), Pack(b));
  }

  /** `BlockFlagsEveryMismatch` for any pair of words holding the two blocks. */
  lemma WordFlagsEveryMismatch(a: seq<Byte>, b: seq<Byte>, c1: bv64, c2: bv64)
    requires |a| == 8 && |b| == 8
    requires forall i :: 0 <= i < 8 ==> Lane(c1, i) == a[i] as bv64 && Lane(c2, i) == b[i] as bv64
    ensures forall i :: 0 <= i < 8 && Mismatch(a[i], b[i]) ==> Lane(FlaggedLanes(c1, c2), i) != 0
  {
    var m1, m2 := IsNMask(c1), IsNMask(c2);
    IsNMaskFlagsEveryN(c1);
    IsNMaskFlagsEveryN(c2);
    LanesOfOrXor(c1, c2, m1, m2);
    LanesFlagEveryMismatch(a, b, c1, c2, m1, m2, FlaggedLanes(c1, c2));
  }

  /** The lane-by-lane argument behind `WordFlagsEveryMismatch`, over arbitrary masks. */
  lemma LanesFlagEveryMismatch(a: seq<Byte>, b: seq<Byte>, c1: bv64, c2: bv64, m1: bv64, m2: bv64, f: bv64)
    requires |a| == 8 && |b| == 8
    requires forall i :: 0 <= i < 8 ==> Lane(c1, i) == a[i] as bv64 && Lane(c2, i) == b[i] as bv64
    requires forall i :: 0 <= i < 8 && Lane(c1, i) == N as bv64 ==> Lane(m1, i) == 0x80
    requires forall i :: 0 <= i < 8 && Lane(c2, i) == N as bv64 ==> Lane(m2, i) == 0x80
    requires forall i :: 0 <= i < 8 ==> Lane(f, i) == (Lane(c1, i) ^ Lane(c2, i)) | (Lane(m1, i) | Lane(m2, i))
    ensures forall i :: 0 <= i < 8 && Mismatch(a[i], b[i]) ==> Lane(f, i) != 0
  {
    forall i | 0 <= i < 8 && Mismatch(a[i], b[i])
      ensures Lane(f, i) != 0
    {
      LaneRule(a[i], b[i], Lane(m1, i), Lane(m2, i), false);
    }
  }

  /** Without the byte 0x4F, only mismatching positions of a block are flagged. */
  lemma BlockFlagsOnlyMismatches(a: seq<Byte>, b: seq<Byte>)
    requires |a| == 8 && |b| == 8
    requires forall i :: 0 <= i < 8 ==> a[i] != 0x4F && b[i] != 0x4F
    ensures forall i :: 0 <= i < 8 && Lane(FlaggedLanes(Pack(a), Pack(b)), i) != 0 ==> Mismatch(a[i], b[i])
  {
    PackLanes(a);
    PackLanes(b);
    WordFlagsOnlyMismatches(a, b, Pack(a), Pack(b));
  }

  /** `BlockFlagsOnlyMismatches` for any pair of words holding the two blocks. */
  lemma WordFlagsOnlyMismatches(a: seq<Byte>, b: seq<Byte>, c1: bv64, c2: bv64)
    requires |a| == 8 && |b| == 8
    requires forall i :: 0 <= i < 8 ==> a[i] != 0x4F && b[i] != 0x4F
    requires forall i :: 0 <= i < 8 ==> Lane(c1, i) == a[i] as bv64 && Lane(c2, i) == b[i] as bv64
    ensures forall i :: 0 <= i < 8 && Lane(FlaggedLanes(c1, c2), i) != 0 ==> Mismatch(a[i], b[i])
  {
    var m1, m2 := IsNMask(c1), IsNMask(c2);
    IsNMaskExact(c1);
    IsNMaskExact(c2);
    LanesOfOrXor(c1, c2, m1, m2);
    LanesFlagOnlyMismatches(a, b, c1, c2, m1, m2, FlaggedLanes(c1, c2));
  }

  /** The lane-by-lane argument behind `WordFlagsOnlyMismatches`, over arbitrary exact masks. */
  lemma LanesFlagOnlyMismatches(a: seq<Byte>, b: seq<Byte>, c1: bv64, c2: bv64, m1: bv64, m2: bv64, f: bv64)
    requires |a| == 8 && |b| == 8
    requires forall i :: 0 <= i < 8 ==> Lane(c1, i) == a[i] as bv64 && Lane(c2, i) == b[i] as bv64
    requires forall i :: 0 <= i < 8 ==> Lane(m1, i) == if Lane(c1, i) == N as bv64 then 0x80 else 0
    requires forall i :: 0 <= i < 8 ==> Lane(m2, i) == if Lane(c2, i) == N as bv64 then 0x80 else 0
    requires forall i :: 0 <= i < 8 ==> Lane(f, i) == (Lane(c1, i) ^ Lane(c2, i)) | (Lane(m1, i) | Lane(m2, i))
    ensures forall i :: 0 <= i < 8 && Lane(f, i) != 0 ==> Mismatch(a[i], b[i])
  {
    forall i | 0 <= i < 8 && Lane(f, i) != 0
      ensures Mismatch(a[i], b[i])
    {
      LaneRule(a[i], b[i], Lane(m1, i), Lane(m2, i), true);
    }
  }

  /** One lane of `FlaggedLanes`, given what the masks hold in that lane. */
  lemma LaneRule(p: Byte, q: Byte, k1: bv64, k2: bv64, exact: bool)
    requires p == N ==> k1 == 0x80
    requires q == N ==> k2 == 0x80
    requires exact ==> k1 == (if p == N then 0x80 else 0) && k2 == (if q == N then 0x80 else 0)
    ensures Mismatch(p, q) ==> ((p as bv64) ^ (q as bv64)) | (k1 | k2) != 0
    ensures exact && ((p as bv64) ^ (q as bv64)) | (k1 | k2) != 0 ==> Mismatch(p, q)
  {
  }

  /** Lanes commute with the bitwise operators that build `FlaggedLanes`. */
  lemma LanesOfOrXor(c1: bv64, c2: bv64, m1: bv64, m2: bv64)
    ensures forall i :: 0 <= i < 8 ==>
      Lane((c1 ^ c2) | (m1 | m2), i) == (Lane(c1, i) ^ Lane(c2, i)) | (Lane(m1, i) | Lane(m2, i))
  {
    forall i | 0 <= i < 8
      ensures Lane((c1 ^ c2) | (m1 | m2), i) == (Lane(c1, i) ^ Lane(c2, i)) | (Lane(m1, i) | Lane(m2, i))
    {
      if i == 0 {} else if i == 1 {} else if i == 2 {} else if i == 3 {}
      else if i == 4 {} else if i == 5 {} else if i == 6 {} else {}
    }
  }

  /**
   * `hamming_distance` as written: full 8-byte blocks through the word-parallel
   * step, the remaining tail through the per-byte rule. It never counts fewer
   * mismatches than the per-byte rule, and never more than there are bytes.
   */
  function SwarHammingDistance(a: seq<Byte>, b: seq<Byte>): (d: nat)
    requires |a| == |b|
    ensures HammingDistance(a, b) <= d <= |a|
    decreases |a|
  {
    if |a| < 8 then HammingDistance(a, b)
    else
      var block := BlockDistance(a[..8], b[..8]);
      BlockFlagsEveryMismatch(a[..8], b[..8]);
      LanesVersusMismatches(FlaggedLanes(Pack(a[..8]), Pack(b[..8])), a[..8], b[..8], 8);
      HammingDistanceAppend(a[..8], a[8..], b[..8], b[8..]);
      assert a[..8] + a[8..] == a && b[..8] + b[8..] == b;
      assert a[..8][..8] == a[..8] && b[..8][..8] == b[..8];
      block + SwarHammingDistance(a[8..], b[8..])
  }

  /** On inputs without the byte 0x4F (in particular over `A C G T N`) the word-parallel code is exact. */
  lemma {:induction false} SwarHammingDistanceExact(a: seq<Byte>, b: seq<Byte>)
    requires |a| == |b|
    requires forall i :: 0 <= i < |a| ==> a[i] != 0x4F && b[i] != 0x4F
    ensures SwarHammingDistance(a, b) == HammingDistance(a, b)
    decreases |a|
  {
    if |a| >= 8 {
      BlockFlagsEveryMismatch(a[..8], b[..8]);
      BlockFlagsOnlyMismatches(a[..8], b[..8]);
      LanesVersusMismatches(FlaggedLanes(Pack(a[..8]), Pack(b[..8])), a[..8], b[..8], 8);
      HammingDistanceAppend(a[..8], a[8..], b[..8], b[8..]);
      assert a[..8] + a[8..] == a && b[..8] + b[8..] == b;
      assert a[..8][..8] == a[..8] && b[..8][..8] == b[..8];
      SwarHammingDistanceExact(a[8..], b[8..]);
    }
  }

  /** The source's distance tests hold of the word-parallel code too: none of their bytes is 0x4F. */
  lemma SwarDistanceExamples()
    ensures SwarHammingDistance(Block, Block) == 0
    ensures SwarHammingDistance(TailA, TailB) == 2
  {
    DistanceExamples();
    SwarHammingDistanceExact(Block, Block);
    SwarHammingDistanceExact(TailA, TailB);
  }

  /** The block `NOAAAAAA` (an `N` followed by an `O`). */
  const NThenO: seq<Byte> := [0x4E, 0x4F, 0x41, 0x41, 0x41, 0x41, 0x41, 0x41]

  /**
   * Counterexample to "same value as the per-byte loop": compared with itself,
   * `NOAAAAAA` has one ambiguous position, but the borrow out of the `N` lane
   * flags the `O` lane as well and the word-parallel code reports 2.
   */
  lemma SwarOvercountsAfterN()
    ensures HammingDistance(NThenO, NThenO) == 1
    ensures SwarHammingDistance(NThenO, NThenO) == 2
  {
    var x := Pack(NThenO);
    assert x == 0x4141_4141_4141_4F4E;
    assert FlaggedLanes(x, x) == 0x8080;
    assert NonzeroLanes(0x8080, 8) == 2 by {
      assert NonzeroLanes(0x8080, 2) == 2;
      assert NonzeroLanes(0x8080, 5) == 2;
    }
    assert NThenO[..8] == NThenO && NThenO[8..] == [];
    HammingDistanceToSelfCountsN(NThenO);
    assert AmbiguousPositions(NThenO) == {0};
  }

  // ---------------------------------------------------------------------------
  // The search as written: windows scored by the word-parallel distance
  // ---------------------------------------------------------------------------

  /**
   * Under the word-parallel distance the chunk filter still rejects nothing it
   * should keep: that distance is never below the per-byte one, so the pigeonhole
   * argument applies.
   */
  lemma SwarPigeonholeChunk(umi: seq<Byte>, window: seq<Byte>, m: nat, chunked: bool)
    requires |window| == |umi|
    requires chunked ==> 0 < m + 1 <= |umi|
    ensures chunked && SwarHammingDistance(umi, window) <= m ==> HasMatchingChunk(umi, window, m + 1)
  {
    if chunked && SwarHammingDistance(umi, window) <= m {
      PigeonholeChunk(umi, window, m);
    }
  }

  /**
   * The `.any` scan of the two distance paths of `is_umi_in_read` from window
   * `from` on, each window scored by `hamming_distance` as written; `chunked`
   * puts the exact-chunk test in front, as the pigeonhole path does.
   */
  function SwarAnyWindow(umi: seq<Byte>, read: seq<Byte>, m: nat, chunked: bool, from: nat): (found: bool)
    requires from + |umi| <= |read| + 1
    requires chunked ==> 0 < m + 1 <= |umi|
    ensures found <==> exists i: nat :: from <= i && i + |umi| <= |read| && SwarHammingDistance(umi, Window(read, i, |umi|)) <= m
    decreases |read| + 1 - from
  {
    if from + |umi| > |read| then false
    else
      var w := Window(read, from, |umi|);
      SwarPigeonholeChunk(umi, w, m, chunked);
      ((!chunked || HasMatchingChunk(umi, w, m + 1)) && SwarHammingDistance(umi, w) <= m)
        || SwarAnyWindow(umi, read, m, chunked, from + 1)
  }

  /**
   * `is_umi_in_read` as written: the three paths of `Matcher.IsUmiInRead`, but
   * the two distance paths score each window with the word-parallel
   * `hamming_distance`, which is what the source calls there.
   */
  function IsUmiInReadAsWritten(umi: seq<Byte>, read: seq<Byte>, m: nat): (found: bool)
    requires MatcherDefined(umi, read, m)
    ensures |read| < |umi| ==> !found
    ensures m == 0 ==> (found <==> ExactOccurrence(umi, read))
    ensures m > 0 ==> (found <==> exists i: nat :: i + |umi| <= |read| && SwarHammingDistance(umi, Window(read, i, |umi|)) <= m)
  {
    if |read| < |umi| then false
    else if m == 0 then AnyWindow(Exact, umi, read, 0)
    else SwarAnyWindow(umi, read, m, |umi| >= m + 1, 0)
  }

  /** On a UMI and a read without the byte 0x4F the search as written decides as `Matcher.IsUmiInRead` does. */
  lemma AsWrittenMatcherAgrees(umi: seq<Byte>, read: seq<Byte>, m: nat)
    requires MatcherDefined(umi, read, m)
    requires forall k :: 0 <= k < |umi| ==> umi[k] != 0x4F
    requires forall k :: 0 <= k < |read| ==> read[k] != 0x4F
    ensures IsUmiInReadAsWritten(umi, read, m) == IsUmiInRead(umi, read, m)
  {
    forall i: nat | i + |umi| <= |read|
      ensures SwarHammingDistance(umi, Window(read, i, |umi|)) == HammingDistance(umi, Window(read, i, |umi|))
    {
      var w := Window(read, i, |umi|);
      assert forall k :: 0 <= k < |w| ==> w[k] == read[i + k];
      SwarHammingDistanceExact(umi, w);
    }
  }

  /**
   * The overcount reaches the search: with `NOAAAAAA` as both UMI and read and
   * one mismatch allowed, the per-byte rule finds the read (distance 1) and the
   * code as written does not (distance 2).
   */
  lemma AsWrittenMatcherMissesNThenO()
    ensures MatcherDefined(NThenO, NThenO, 1)
    ensures IsUmiInRead(NThenO, NThenO, 1)
    ensures !IsUmiInReadAsWritten(NThenO, NThenO, 1)
  {
    SwarOvercountsAfterN();
    assert Window(NThenO, 0, 8) == NThenO;
  }
}
