/**
 * The approximate matcher of `src/matcher.rs`: a Hamming distance in which the
 * ambiguous base `N` always counts as a mismatch, and a search for a UMI inside a
 * read that tolerates a bounded number of mismatches.
 *
 * `HammingDistance` is the per-byte rule that `hamming_distance` promises; the
 * word-parallel way the source computes it is modelled in module `Swar`.
 */
module Matcher {
  import opened Bytes
  import opened Fixtures

  /** The ambiguous base. Only upper-case `N` (0x4E) is recognised; `n` is an ordinary byte. */
  const N: Byte := 0x4E

  /** The largest value of the source's `u32` mismatch limit. */
  const U32_MAX: nat := 0xFFFF_FFFF

  /** Position rule of the distance: bytes differ, or either one is ambiguous. */
  predicate Mismatch(a: Byte, b: Byte) {
    a != b || a == N || b == N
  }

  /** Number of mismatching positions of two equal-length byte strings. */
  function HammingDistance(a: seq<Byte>, b: seq<Byte>): (d: nat)
    requires |a| == |b|
    ensures d <= |a|
    decreases |a|
  {
    if |a| == 0 then 0
    else
      HammingDistance(a[..|a| - 1], b[..|b| - 1])
      + (if Mismatch(a[|a| - 1], b[|b| - 1]) then 1 else 0)
  }

  /** The positions at which `a` and `b` mismatch: an independent reading of the distance. */
  ghost function MismatchPositions(a: seq<Byte>, b: seq<Byte>): set<nat>
    requires |a| == |b|
  {
    set i: nat | i < |a| && Mismatch(a[i], b[i])
  }

  lemma {:induction false} HammingDistanceCountsMismatches(a: seq<Byte>, b: seq<Byte>)
    requires |a| == |b|
    ensures HammingDistance(a, b) == |MismatchPositions(a, b)|
    decreases |a|
  {
    if |a| > 0 {
      var n := |a| - 1;
      HammingDistanceCountsMismatches(a[..n], b[..n]);
      MismatchPositionsSnoc(a, b);
    }
  }

  /** The mismatch positions of a pair of strings are those of their prefixes, plus possibly the last position. */
  lemma MismatchPositionsSnoc(a: seq<Byte>, b: seq<Byte>)
    requires |a| == |b| > 0
    ensures var n := |a| - 1;
      var prefix := MismatchPositions(a[..n], b[..n]);
      && n !in prefix
      && MismatchPositions(a, b) == prefix + (if Mismatch(a[n], b[n]) then {n} else {})
  {
    var n := |a| - 1;
    var prefix := MismatchPositions(a[..n], b[..n]);
    assert prefix == set i: nat | i < n && Mismatch(a[i], b[i]);
  }

  lemma {:induction false} HammingDistanceSymmetric(a: seq<Byte>, b: seq<Byte>)
    requires |a| == |b|
    ensures HammingDistance(a, b) == HammingDistance(b, a)
    decreases |a|
  {
    if |a| > 0 {
      HammingDistanceSymmetric(a[..|a| - 1], b[..|b| - 1]);
    }
  }

  /** The positions of the ambiguous base in `a`. */
  ghost function AmbiguousPositions(a: seq<Byte>): set<nat> {
    set i: nat | i < |a| && a[i] == N
  }

  /** A string compared with itself scores one mismatch per `N` it holds (and none for `n`). */
  lemma HammingDistanceToSelfCountsN(a: seq<Byte>)
    ensures HammingDistance(a, a) == |AmbiguousPositions(a)|
  {
    HammingDistanceCountsMismatches(a, a);
    assert MismatchPositions(a, a) == AmbiguousPositions(a);
  }

  /** The distance is additive over concatenation. */
  lemma {:induction false} HammingDistanceAppend(a1: seq<Byte>, a2: seq<Byte>, b1: seq<Byte>, b2: seq<Byte>)
    requires |a1| == |b1| && |a2| == |b2|
    ensures HammingDistance(a1 + a2, b1 + b2) == HammingDistance(a1, b1) + HammingDistance(a2, b2)
    decreases |a2|
  {
    if |a2| > 0 {
      var n := |a2| - 1;
      HammingDistanceAppend(a1, a2[..n], b1, b2[..n]);
      var a, b := a1 + a2, b1 + b2;
      assert a[..|a| - 1] == a1 + a2[..n];
      assert b[..|b| - 1] == b1 + b2[..n];
      assert a[|a| - 1] == a2[n] && b[|b| - 1] == b2[n];
      assert HammingDistance(a, b) == HammingDistance(a1 + a2[..n], b1 + b2[..n]) + (if Mismatch(a2[n], b2[n]) then 1 else 0);
      assert HammingDistance(a2, b2) == HammingDistance(a2[..n], b2[..n]) + (if Mismatch(a2[n], b2[n]) then 1 else 0);
    } else {
      assert a1 + a2 == a1 && b1 + b2 == b1;
    }
  }

  /** Distance zero means the strings are equal and free of `N`. */
  lemma {:induction false} HammingDistanceZero(a: seq<Byte>, b: seq<Byte>)
    requires |a| == |b|
    ensures HammingDistance(a, b) == 0 <==> (a == b && N !in a)
    decreases |a|
  {
    if |a| > 0 {
      var n := |a| - 1;
      HammingDistanceZero(a[..n], b[..n]);
      assert a == a[..n] + [a[n]];
      assert b == b[..n] + [b[n]];
    }
  }

  /**
   * Replacing one non-ambiguous byte by a different non-ambiguous byte costs
   * exactly one mismatch more than comparing the string with itself.
   */
  lemma {:induction false} SingleSubstitutionCostsOne(a: seq<Byte>, i: nat, c: Byte)
    requires i < |a| && a[i] != N && c != N && c != a[i]
    ensures HammingDistance(a, a[i := c]) == HammingDistance(a, a) + 1
  {
    var b := a[i := c];
    HammingDistanceCountsMismatches(a, b);
    HammingDistanceCountsMismatches(a, a);
    assert MismatchPositions(a, b) == MismatchPositions(a, a) + {i};
  }

  // ---------------------------------------------------------------------------
  // Windows of a read and the two notions of "the UMI occurs in the read"
  // ---------------------------------------------------------------------------

  /** The window of length `len` starting at `i` (one item of Rust's `read.windows(len)`). */
  function Window(read: seq<Byte>, i: nat, len: nat): (w: seq<Byte>)
    requires i + len <= |read|
    ensures |w| == len
  {
    read[i..i + len]
  }

  /** The window that starts right after `p` in `p + w + q` is `w`. */
  lemma WindowOfSplice(p: seq<Byte>, w: seq<Byte>, q: seq<Byte>)
    ensures Window(p + w + q, |p|, |w|) == w
  {
    assert (p + w + q)[|p|..|p| + |w|] == w;
  }

  /** `umi` occurs in `read` as a contiguous, byte-for-byte equal substring. */
  ghost predicate ExactOccurrence(umi: seq<Byte>, read: seq<Byte>) {
    exists i: nat :: i + |umi| <= |read| && Window(read, i, |umi|) == umi
  }

  /** Some window of `read` is within `m` mismatches of `umi`. */
  ghost predicate ApproxOccurrence(umi: seq<Byte>, read: seq<Byte>, m: nat) {
    exists i: nat :: i + |umi| <= |read| && HammingDistance(umi, Window(read, i, |umi|)) <= m
  }

  // ---------------------------------------------------------------------------
  // Pigeonhole chunks
  // ---------------------------------------------------------------------------

  lemma ChunkArithmetic(umiLen: nat, numChunks: nat, idx: nat)
    requires 0 < numChunks && idx < numChunks
    ensures (idx + 1) * (umiLen / numChunks) <= numChunks * (umiLen / numChunks) <= umiLen
    ensures idx * (umiLen / numChunks) <= (idx + 1) * (umiLen / numChunks)
  {
    var cs := umiLen / numChunks;
    assert numChunks * cs <= umiLen;
    assert (idx + 1) * cs <= numChunks * cs by {
      assert idx + 1 <= numChunks;
    }
  }

  /**
   * The half-open range `[start, end)` of chunk `idx` when a UMI of length
   * `umiLen` is cut into `numChunks` pieces of `umiLen / numChunks` bytes,
   * the last piece taking the remainder.
   */
  function ChunkRange(umiLen: nat, numChunks: nat, idx: nat): (r: (nat, nat))
    requires 0 < numChunks && idx < numChunks
    ensures r.0 <= r.1 <= umiLen
  {
    ChunkArithmetic(umiLen, numChunks, idx);
    var chunkSize := umiLen / numChunks;
    var start := idx * chunkSize;
    var end := if idx == numChunks - 1 then umiLen else (idx + 1) * chunkSize;
    (start, end)
  }

  /**
   * When the UMI is at least as long as the number of chunks, the chunks are
   * non-empty, the first starts at 0, each ends where the next begins, and the
   * last ends at the end of the UMI: together they partition `[0, umiLen)`.
   */
  lemma ChunkRangesPartition(umiLen: nat, numChunks: nat)
    requires 0 < numChunks <= umiLen
    ensures ChunkRange(umiLen, numChunks, 0).0 == 0
    ensures ChunkRange(umiLen, numChunks, numChunks - 1).1 == umiLen
    ensures forall c :: 0 <= c < numChunks ==> ChunkRange(umiLen, numChunks, c).0 < ChunkRange(umiLen, numChunks, c).1
    ensures forall c :: 0 <= c < numChunks - 1 ==> ChunkRange(umiLen, numChunks, c).1 == ChunkRange(umiLen, numChunks, c + 1).0
  {
    var cs := umiLen / numChunks;
    assert cs >= 1;
    forall c | 0 <= c < numChunks
      ensures ChunkRange(umiLen, numChunks, c).0 < ChunkRange(umiLen, numChunks, c).1
    {
      ChunkArithmetic(umiLen, numChunks, c);
      assert c * cs < (c + 1) * cs;
    }
  }

  /** Chunk `idx` of `umi` equals the same byte range of `window`. */
  predicate ChunkMatches(umi: seq<Byte>, window: seq<Byte>, numChunks: nat, idx: nat)
    requires |window| == |umi| && 0 < numChunks && idx < numChunks
  {
    var (start, end) := ChunkRange(|umi|, numChunks, idx);
    umi[start..end] == window[start..end]
  }

  /** Some chunk of `umi` matches `window` exactly (the source's `has_matching_chunk`). */
  predicate HasMatchingChunk(umi: seq<Byte>, window: seq<Byte>, numChunks: nat)
    requires |window| == |umi| && 0 < numChunks
    ensures window == umi ==> HasMatchingChunk(umi, window, numChunks)
  {
    assert window == umi ==> ChunkMatches(umi, window, numChunks, 0);
    exists c :: 0 <= c < numChunks && ChunkMatches(umi, window, numChunks, c)
  }

  /** If chunks `0..=c` all fail to match, the bytes they cover hold at least `c + 1` mismatches. */
  lemma {:induction false} UnmatchedChunksCostMismatches(umi: seq<Byte>, window: seq<Byte>, numChunks: nat, c: nat)
    requires |window| == |umi| && 0 < numChunks <= |umi| && c < numChunks
    requires forall c' :: 0 <= c' <= c ==> !ChunkMatches(umi, window, numChunks, c')
    ensures var end := ChunkRange(|umi|, numChunks, c).1;
      HammingDistance(umi[..end], window[..end]) >= c + 1
  {
    ChunkRangesPartition(|umi|, numChunks);
    var (start, end) := ChunkRange(|umi|, numChunks, c);
    assert !ChunkMatches(umi, window, numChunks, c);
    HammingDistanceZero(umi[start..end], window[start..end]);
    HammingDistanceAppend(umi[..start], umi[start..end], window[..start], window[start..end]);
    assert umi[..start] + umi[start..end] == umi[..end];
    assert window[..start] + window[start..end] == window[..end];
    if c > 0 {
      UnmatchedChunksCostMismatches(umi, window, numChunks, c - 1);
    } else {
      assert umi[..start] == [];
    }
  }

  /**
   * Pigeonhole: a window within `m` mismatches of the UMI has at least one of
   * the `m + 1` chunks matching exactly, so the chunk filter never rejects a
   * qualifying window.
   */
  lemma PigeonholeChunk(umi: seq<Byte>, window: seq<Byte>, m: nat)
    requires |window| == |umi| && 0 < m + 1 <= |umi|
    requires HammingDistance(umi, window) <= m
    ensures HasMatchingChunk(umi, window, m + 1)
  {
    if !HasMatchingChunk(umi, window, m + 1) {
      assert ChunkRange(|umi|, m + 1, m).1 == |umi|;
      assert umi[..|umi|] == umi && window[..|window|] == window;
      UnmatchedChunksCostMismatches(umi, window, m + 1, m);
      assert false;
    }
  }

  // ---------------------------------------------------------------------------
  // The search
  // ---------------------------------------------------------------------------

  /** The per-window test of each of the three search paths of `is_umi_in_read`. */
  datatype WindowTest =
    | Exact                  // `window == umi`
    | WithinDistance(m: nat) // full distance only
    | ChunkFiltered(m: nat)  // a chunk matches, then full distance

  predicate Accepts(t: WindowTest, umi: seq<Byte>, window: seq<Byte>)
    requires |window| == |umi|
  {
    match t
    case Exact => window == umi
    case WithinDistance(m) => HammingDistance(umi, window) <= m
    case ChunkFiltered(m) => HasMatchingChunk(umi, window, m + 1) && HammingDistance(umi, window) <= m
  }

  /** Whether some window starting at `from` or later passes test `t` (Rust's `.any` over `windows`). */
  function AnyWindow(t: WindowTest, umi: seq<Byte>, read: seq<Byte>, from: nat): (found: bool)
    requires from + |umi| <= |read| + 1
    ensures found <==> exists i: nat :: from <= i && i + |umi| <= |read| && Accepts(t, umi, Window(read, i, |umi|))
    decreases |read| + 1 - from
  {
    if from + |umi| > |read| then false
    else Accepts(t, umi, Window(read, from, |umi|)) || AnyWindow(t, umi, read, from + 1)
  }

  /** The inputs on which `is_umi_in_read` returns instead of panicking. */
  predicate MatcherDefined(umi: seq<Byte>, read: seq<Byte>, m: nat) {
    && m <= U32_MAX
    && (|read| < |umi| || (0 < |umi| && m < U32_MAX))
  }

  /** For `m >= 1` the chunk filter accepts exactly the windows within `m` mismatches. */
  lemma ChunkFilterExact(umi: seq<Byte>, read: seq<Byte>, m: nat)
    requires 0 < m + 1 <= |umi|
    ensures forall i: nat :: i + |umi| <= |read| ==>
      (Accepts(ChunkFiltered(m), umi, Window(read, i, |umi|)) <==> Accepts(WithinDistance(m), umi, Window(read, i, |umi|)))
  {
    forall i: nat | i + |umi| <= |read| && Accepts(WithinDistance(m), umi, Window(read, i, |umi|))
      ensures HasMatchingChunk(umi, Window(read, i, |umi|), m + 1)
    {
      PigeonholeChunk(umi, Window(read, i, |umi|), m);
    }
  }

  /**
   * `is_umi_in_read`: no window fits a read shorter than the UMI; with no
   * mismatch allowed the answer is plain substring search (byte equality, so
   * `N` matches `N` there); otherwise it is "some window is within `m`
   * mismatches", whether or not the chunk filter runs.
   */
  function IsUmiInRead(umi: seq<Byte>, read: seq<Byte>, m: nat): (found: bool)
    requires MatcherDefined(umi, read, m)
    ensures |read| < |umi| ==> !found
    ensures m == 0 ==> (found <==> ExactOccurrence(umi, read))
    ensures m > 0 ==> (found <==> ApproxOccurrence(umi, read, m))
  {
    if |read| < |umi| then false
    else if m == 0 then AnyWindow(Exact, umi, read, 0)
    else if |umi| < m + 1 then AnyWindow(WithinDistance(m), umi, read, 0)
    else
      ChunkFilterExact(umi, read, m);
      AnyWindow(ChunkFiltered(m), umi, read, 0)
  }

  /** For `1 <= m1 <= m2`, allowing more mismatches never loses a match. */
  lemma IsUmiInReadMonotone(umi: seq<Byte>, read: seq<Byte>, m1: nat, m2: nat)
    requires 1 <= m1 <= m2 && MatcherDefined(umi, read, m2)
    ensures IsUmiInRead(umi, read, m1) ==> IsUmiInRead(umi, read, m2)
  {
    if IsUmiInRead(umi, read, m1) {
      var i: nat :| i + |umi| <= |read| && HammingDistance(umi, Window(read, i, |umi|)) <= m1;
      assert HammingDistance(umi, Window(read, i, |umi|)) <= m2;
    }
  }

  /**
   * Monotonicity fails between 0 and 1: the zero-mismatch path compares bytes,
   * so `NN` is found in `NN`, while the distance rule scores that window 2.
   */
  lemma ZeroMismatchPathIsNotMonotone()
    ensures IsUmiInRead([N, N], [N, N], 0)
    ensures !IsUmiInRead([N, N], [N, N], 1)
  {
    var nn: seq<Byte> := [N, N];
    assert Window(nn, 0, 2) == nn;
    assert HammingDistance(nn, nn) == 2 by {
      assert nn[..1] == [N] && [N][..0] == [];
    }
    forall i: nat | i + 2 <= 2
      ensures HammingDistance(nn, Window(nn, i, 2)) > 1
    {
      assert Window(nn, i, 2) == nn;
    }
  }

  /** `b"ACGTACGT"`, both inputs of the first distance test. */
  const Block: seq<Byte> := [0x41, 0x43, 0x47, 0x54, 0x41, 0x43, 0x47, 0x54]

  /** `b"ACGTNACGTA"` and `b"ACGTAACGTT"`: an `N` inside the first block and a substitution in the tail. */
  const TailA: seq<Byte> := [0x41, 0x43, 0x47, 0x54, 0x4E, 0x41, 0x43, 0x47, 0x54, 0x41]
  const TailB: seq<Byte> := [0x41, 0x43, 0x47, 0x54, 0x41, 0x41, 0x43, 0x47, 0x54, 0x54]

  /** Two strings that agree, without `N`, except at one inner and one final position score 2. */
  lemma TwoMismatches(p: seq<Byte>, u: Byte, v: Byte, q: seq<Byte>, x: Byte, y: Byte)
    requires N !in p && N !in q && Mismatch(u, v) && Mismatch(x, y)
    ensures HammingDistance(p + [u] + q + [x], p + [v] + q + [y]) == 2
  {
    HammingDistanceZero(p, p);
    HammingDistanceZero(q, q);
    HammingDistanceAppend(p, [u], p, [v]);
    HammingDistanceAppend(p + [u], q, p + [v], q);
    HammingDistanceAppend(p + [u] + q, [x], p + [v] + q, [y]);
  }

  /** The distance tests of the source: equal blocks without `N` score 0; the `N` and the tail substitution score 2. */
  lemma DistanceExamples()
    ensures HammingDistance(Block, Block) == 0
    ensures HammingDistance(TailA, TailB) == 2
  {
    HammingDistanceZero(Block, Block);
    var p: seq<Byte> := [0x41, 0x43, 0x47, 0x54];
    assert TailA == p + [N] + p + [0x41] && TailB == p + [0x41] + p + [0x54];
    TwoMismatches(p, N, 0x41, p, 0x41, 0x54);
  }

  /** `b"GGGGACGTACGTACGTGGGG"`, the read of the first unit test. */
  const ExactRead: seq<Byte> :=
    [0x47, 0x47, 0x47, 0x47, 0x41, 0x43, 0x47, 0x54, 0x41, 0x43, 0x47, 0x54, 0x41, 0x43, 0x47, 0x54, 0x47, 0x47, 0x47, 0x47]

  /** First unit test of the source: the UMI occurs verbatim. */
  lemma ExactExample()
    ensures IsUmiInRead(ExampleUmi, ExactRead, 0)
  {
    var g: seq<Byte> := [0x47, 0x47, 0x47, 0x47];
    assert ExactRead == g + ExampleUmi + g;
    WindowOfSplice(g, ExampleUmi, g);
    assert MatcherDefined(ExampleUmi, ExactRead, 0);
  }

  /** `b"GGGGACGTACGAACGTGGGG"`, the read of the second unit test: the UMI with its byte 7 turned from `T` into `A`. */
  const ExampleRead: seq<Byte> :=
    [0x47, 0x47, 0x47, 0x47, 0x41, 0x43, 0x47, 0x54, 0x41, 0x43, 0x47, 0x41, 0x41, 0x43, 0x47, 0x54, 0x47, 0x47, 0x47, 0x47]

  lemma ExampleReadHasNoExactWindow()
    ensures !ExactOccurrence(ExampleUmi, ExampleRead)
  {
    forall i: nat | i + 12 <= 20
      ensures Window(ExampleRead, i, 12) != ExampleUmi
    {
      var w := Window(ExampleRead, i, 12);
      if i == 4 {
        assert w[7] == ExampleRead[11] == 0x41;
      } else if i == 8 {
        assert w[3] == ExampleRead[11] == 0x41;
      } else {
        assert w[0] == ExampleRead[i];
        assert ExampleRead[i] != 0x41 by {
          if i < 4 {} else if i == 5 {} else if i == 6 {} else {}
        }
      }
    }
  }

  lemma ExampleReadHasCloseWindow()
    ensures ApproxOccurrence(ExampleUmi, ExampleRead, 1)
  {
    var umi := ExampleUmi;
    assert Window(ExampleRead, 4, 12) == umi[7 := 0x41];
    SingleSubstitutionCostsOne(umi, 7, 0x41);
    HammingDistanceToSelfCountsN(umi);
    assert AmbiguousPositions(umi) == {};
  }

  /** Second unit test of the source: one substitution inside the window. */
  lemma OneSubstitutionExample()
    ensures !IsUmiInRead(ExampleUmi, ExampleRead, 0)
    ensures IsUmiInRead(ExampleUmi, ExampleRead, 1)
  {
    ExampleReadHasNoExactWindow();
    ExampleReadHasCloseWindow();
    assert MatcherDefined(ExampleUmi, ExampleRead, 0);
    assert MatcherDefined(ExampleUmi, ExampleRead, 1);
  }

  /** `b"XXXXACGTYYYY"` and `b"AAAAAAAA"`, the reads of the unit test of `process_batch`. */
  const HitRead: seq<Byte> := [0x58, 0x58, 0x58, 0x58, 0x41, 0x43, 0x47, 0x54, 0x59, 0x59, 0x59, 0x59]
  const MissRead: seq<Byte> := [0x41, 0x41, 0x41, 0x41, 0x41, 0x41, 0x41, 0x41]

  /** With no mismatch allowed, `ACGT` is found in the first read and `TTTT` is not found in the second. */
  lemma RoutingReads()
    ensures MatcherDefined(R1Umi, HitRead, 0) && IsUmiInRead(R1Umi, HitRead, 0)
    ensures MatcherDefined(R2Umi, MissRead, 0) && !IsUmiInRead(R2Umi, MissRead, 0)
  {
    var x: seq<Byte>, y: seq<Byte> := [0x58, 0x58, 0x58, 0x58], [0x59, 0x59, 0x59, 0x59];
    assert HitRead == x + R1Umi + y;
    WindowOfSplice(x, R1Umi, y);
    forall i: nat | i + 4 <= |MissRead|
      ensures Window(MissRead, i, 4) != R2Umi
    {
      assert Window(MissRead, i, 4)[0] == MissRead[i] == 0x41;
    }
  }
}
