/**
 * `extract_umi_from_header` of `src/lib.rs`: the header must be UTF-8; its first
 * whitespace-separated token is split at its last `:` or `_`, and the part after
 * it is the UMI, which must have the expected length (the source panics
 * otherwise) and is returned upper-cased.
 *
 * The header is handled as bytes. UTF-8 validity is the well-formedness table of
 * the Unicode standard (section 3.9, table 3-7), and whitespace is the Unicode
 * `White_Space` property that `split_whitespace` uses, recognised by its encoded
 * bytes.
 */
module Header {
  import opened Wrappers
  import opened Bytes
  import opened Fixtures

  /** `k` indexes a byte of `s` within `lo..hi`. */
  predicate ByteIn(s: seq<Byte>, k: nat, lo: Byte, hi: Byte) {
    k < |s| && lo <= s[k] <= hi
  }

  /** Length of the well-formed UTF-8 character whose encoding starts at `i`, or 0 if none starts there. */
  function Utf8CharLen(s: seq<Byte>, i: nat): (n: nat)
    requires i < |s|
    ensures n <= 4 && i + n <= |s|
    ensures n == 1 <==> s[i] < 0x80
    ensures n > 1 ==> forall k :: i < k < i + n ==> 0x80 <= s[k] <= 0xBF
  {
    var b := s[i];
    if b < 0x80 then 1
    else if 0xC2 <= b <= 0xDF then
      if ByteIn(s, i + 1, 0x80, 0xBF) then 2 else 0
    else if b == 0xE0 then
      if ByteIn(s, i + 1, 0xA0, 0xBF) && ByteIn(s, i + 2, 0x80, 0xBF) then 3 else 0
    else if 0xE1 <= b <= 0xEC || 0xEE <= b <= 0xEF then
      if ByteIn(s, i + 1, 0x80, 0xBF) && ByteIn(s, i + 2, 0x80, 0xBF) then 3 else 0
    else if b == 0xED then
      if ByteIn(s, i + 1, 0x80, 0x9F) && ByteIn(s, i + 2, 0x80, 0xBF) then 3 else 0
    else if b == 0xF0 then
      if ByteIn(s, i + 1, 0x90, 0xBF) && ByteIn(s, i + 2, 0x80, 0xBF) && ByteIn(s, i + 3, 0x80, 0xBF) then 4 else 0
    else if 0xF1 <= b <= 0xF3 then
      if ByteIn(s, i + 1, 0x80, 0xBF) && ByteIn(s, i + 2, 0x80, 0xBF) && ByteIn(s, i + 3, 0x80, 0xBF) then 4 else 0
    else if b == 0xF4 then
      if ByteIn(s, i + 1, 0x80, 0x8F) && ByteIn(s, i + 2, 0x80, 0xBF) && ByteIn(s, i + 3, 0x80, 0xBF) then 4 else 0
    else 0
  }

  /** The bytes from `i` on are a sequence of well-formed UTF-8 characters. */
  predicate ValidUtf8From(s: seq<Byte>, i: nat)
    requires i <= |s|
    decreases |s| - i
  {
    i == |s| || (Utf8CharLen(s, i) > 0 && ValidUtf8From(s, i + Utf8CharLen(s, i)))
  }

  /** `std::str::from_utf8` accepts `s`. */
  predicate ValidUtf8(s: seq<Byte>) {
    ValidUtf8From(s, 0)
  }

  predicate IsAscii(s: seq<Byte>) {
    forall k :: 0 <= k < |s| ==> s[k] < 0x80
  }

  /** Pure ASCII is valid UTF-8, from any point on. */
  lemma {:induction false} AsciiIsValidUtf8From(s: seq<Byte>, i: nat)
    requires i <= |s| && forall k :: i <= k < |s| ==> s[k] < 0x80
    ensures ValidUtf8From(s, i)
    decreases |s| - i
  {
    if i < |s| {
      AsciiIsValidUtf8From(s, i + 1);
    }
  }

  lemma AsciiIsValidUtf8(s: seq<Byte>)
    requires IsAscii(s)
    ensures ValidUtf8(s)
  {
    AsciiIsValidUtf8From(s, 0);
  }

  /** A stray continuation byte, and the encoded surrogate U+D800, are rejected. */
  lemma MalformedExamples()
    ensures !ValidUtf8([0x41, 0x80])
    ensures !ValidUtf8([0xED, 0xA0, 0x80])
  {
    assert Utf8CharLen([0x41, 0x80], 1) == 0;
    assert Utf8CharLen([0xED, 0xA0, 0x80], 0) == 0;
  }

  /** The ASCII bytes of Unicode `White_Space`: tab, line feed, vertical tab, form feed, carriage return, space. */
  predicate IsAsciiWhitespace(b: Byte) {
    0x09 <= b <= 0x0D || b == 0x20
  }

  /**
   * Byte length of the `White_Space` character whose encoding starts at `i`, or 0.
   * Besides the ASCII ones these are U+0085, U+00A0, U+1680, U+2000 to U+200A,
   * U+2028, U+2029, U+202F, U+205F and U+3000. Every pattern starts with a byte
   * that cannot continue a character, so in valid UTF-8 a match is always a
   * whole character.
   */
  function WhitespaceLen(s: seq<Byte>, i: nat): (n: nat)
    requires i < |s|
    ensures n <= 3 && i + n <= |s|
    ensures n > 0 ==> Utf8CharLen(s, i) == n
    ensures s[i] < 0x80 ==> (n > 0 <==> IsAsciiWhitespace(s[i]))
  {
    var b := s[i];
    if IsAsciiWhitespace(b) then 1
    else if b == 0xC2 && i + 1 < |s| && (s[i + 1] == 0x85 || s[i + 1] == 0xA0) then 2
    else if i + 2 < |s| then
      var b1, b2 := s[i + 1], s[i + 2];
      if (b == 0xE1 && b1 == 0x9A && b2 == 0x80)
        || (b == 0xE2 && b1 == 0x80 && (0x80 <= b2 <= 0x8A || b2 == 0xA8 || b2 == 0xA9 || b2 == 0xAF))
        || (b == 0xE2 && b1 == 0x81 && b2 == 0x9F)
        || (b == 0xE3 && b1 == 0x80 && b2 == 0x80)
      then 3
      else 0
    else 0
  }

  /** First position at or after `i` where no whitespace character starts. */
  function SkipWhitespace(s: seq<Byte>, i: nat): (j: nat)
    requires i <= |s|
    ensures i <= j <= |s|
    ensures j == |s| || WhitespaceLen(s, j) == 0
    decreases |s| - i
  {
    if i < |s| && WhitespaceLen(s, i) > 0 then SkipWhitespace(s, i + WhitespaceLen(s, i)) else i
  }

  /** First position at or after `i` where a whitespace character starts, or the end. */
  function TokenEnd(s: seq<Byte>, i: nat): (j: nat)
    requires i <= |s|
    ensures i <= j <= |s|
    ensures forall k :: i <= k < j ==> WhitespaceLen(s, k) == 0
    ensures j == |s| || WhitespaceLen(s, j) > 0
    decreases |s| - i
  {
    if i < |s| && WhitespaceLen(s, i) == 0 then TokenEnd(s, i + 1) else i
  }

  /** `p` is nothing but whitespace characters. */
  predicate AllWhitespace(p: seq<Byte>) {
    SkipWhitespace(p, 0) == |p|
  }

  /** No whitespace character starts anywhere in `t`. */
  predicate NoWhitespace(t: seq<Byte>) {
    forall k :: 0 <= k < |t| ==> WhitespaceLen(t, k) == 0
  }

  /** `q` can follow a token: it is empty or starts with a whitespace character. */
  predicate EndsToken(q: seq<Byte>) {
    q == [] || WhitespaceLen(q, 0) > 0
  }

  /**
   * Whether a whitespace character starts at a position depends only on the
   * bytes it occupies: the same bytes anywhere else are the same character.
   */
  lemma WhitespaceLenLocal(s: seq<Byte>, i: nat, t: seq<Byte>, j: nat)
    requires i < |s| && j < |t| && WhitespaceLen(s, i) > 0
    requires j + WhitespaceLen(s, i) <= |t|
    requires s[i..i + WhitespaceLen(s, i)] == t[j..j + WhitespaceLen(s, i)]
    ensures WhitespaceLen(t, j) == WhitespaceLen(s, i)
  {
    var n := WhitespaceLen(s, i);
    assert s[i] == s[i..i + n][0] == t[j..j + n][0] == t[j];
    if n >= 2 {
      assert s[i + 1] == s[i..i + n][1] == t[j..j + n][1] == t[j + 1];
    }
    if n == 3 {
      assert s[i + 2] == s[i..i + n][2] == t[j..j + n][2] == t[j + 2];
    }
  }

  /** The whitespace run skipped from `i` lies wholly inside the prefix it spans. */
  lemma {:induction false} SkipWithinPrefix(s: seq<Byte>, i: nat)
    requires i <= |s|
    ensures SkipWhitespace(s[..SkipWhitespace(s, i)], i) == SkipWhitespace(s, i)
    decreases |s| - i
  {
    var p := s[..SkipWhitespace(s, i)];
    if i < |s| && WhitespaceLen(s, i) > 0 {
      var n := WhitespaceLen(s, i);
      assert SkipWhitespace(s, i) == SkipWhitespace(s, i + n);
      assert s[i..i + n] == p[i..i + n];
      WhitespaceLenLocal(s, i, p, i);
      SkipWithinPrefix(s, i + n);
    }
  }

  /** A run free of whitespace characters holds no ASCII whitespace byte either. */
  lemma NoAsciiWhitespace(t: seq<Byte>)
    requires NoWhitespace(t)
    ensures forall k :: 0 <= k < |t| ==> !IsAsciiWhitespace(t[k])
  {
    forall k | 0 <= k < |t| ensures !IsAsciiWhitespace(t[k]) {
      assert WhitespaceLen(t, k) == 0;
    }
  }

  /** A slice of a slice is a slice of the original. */
  lemma SliceOfSlice(s: seq<Byte>, lo: nat, hi: nat, a: nat, b: nat)
    requires lo <= hi <= |s| && a <= b <= hi - lo
    ensures s[lo..hi][a..b] == s[lo + a..lo + b]
  {
    forall i | 0 <= i < b - a ensures s[lo..hi][a..b][i] == s[lo + a..lo + b][i] {
      assert s[lo..hi][a..b][i] == s[lo..hi][a + i] == s[lo + a + i];
    }
  }

  /** A whitespace character that starts inside a slice is the same character in the whole sequence. */
  lemma WhitespaceInSlice(s: seq<Byte>, lo: nat, hi: nat, k: nat)
    requires lo <= hi <= |s| && k < hi - lo
    ensures WhitespaceLen(s[lo..hi], k) > 0 ==> WhitespaceLen(s, lo + k) == WhitespaceLen(s[lo..hi], k)
  {
    var t := s[lo..hi];
    var n := WhitespaceLen(t, k);
    if n > 0 {
      SliceOfSlice(s, lo, hi, k, k + n);
      WhitespaceLenLocal(t, k, s, lo + k);
    }
  }

  /** The token `SkipWhitespace` and `TokenEnd` delimit has the shape `EndsToken` and friends describe. */
  lemma TokenShape(s: seq<Byte>, st: nat, en: nat)
    requires st == SkipWhitespace(s, 0) < |s| && en == TokenEnd(s, st)
    ensures st < en
    ensures AllWhitespace(s[..st]) && NoWhitespace(s[st..en]) && EndsToken(s[en..])
  {
    SkipWithinPrefix(s, 0);
    var tok := s[st..en];
    forall k | 0 <= k < |tok| ensures WhitespaceLen(tok, k) == 0 {
      WhitespaceInSlice(s, st, en, k);
    }
    if en < |s| {
      var n := WhitespaceLen(s, en);
      SliceOfSlice(s, en, |s|, 0, n);
      WhitespaceLenLocal(s, en, s[en..|s|], 0);
      assert s[en..|s|] == s[en..];
    }
  }

  /**
   * `split_whitespace().next()`: the first maximal run of non-whitespace, if
   * there is one. There is none exactly when the header is whitespace only;
   * where a token is found, `FirstTokenDelimited` and `FirstTokenOfShape` show it
   * is the one between the leading whitespace and the next whitespace.
   */
  function FirstToken(s: seq<Byte>): (r: Option<seq<Byte>>)
    ensures r.None? <==> AllWhitespace(s)
    ensures r.Some? ==> |r.value| > 0 && NoWhitespace(r.value)
    ensures r.Some? ==> forall k :: 0 <= k < |r.value| ==> !IsAsciiWhitespace(r.value[k])
  {
    var st := SkipWhitespace(s, 0);
    if st == |s| then None
    else
      var en := TokenEnd(s, st);
      TokenShape(s, st, en);
      NoAsciiWhitespace(s[st..en]);
      assert s == s[..st] + s[st..en] + s[en..];
      Some(s[st..en])
  }

  /** A token found is preceded by whitespace only and followed by whitespace or the end. */
  lemma FirstTokenDelimited(s: seq<Byte>)
    requires FirstToken(s).Some?
    ensures exists p, q :: s == p + FirstToken(s).value + q && AllWhitespace(p) && EndsToken(q)
  {
    var st := SkipWhitespace(s, 0);
    var en := TokenEnd(s, st);
    TokenShape(s, st, en);
    assert s == s[..st] + s[st..en] + s[en..];
  }

  /** Whitespace that starts inside a token would have to spill into what follows it, which cannot start mid-character. */
  lemma NoWhitespaceInContext(p: seq<Byte>, tok: seq<Byte>, q: seq<Byte>, k: nat)
    requires NoWhitespace(tok) && EndsToken(q) && k < |tok|
    ensures WhitespaceLen(p + tok + q, |p| + k) == 0
  {
    var s := p + tok + q;
    var n := WhitespaceLen(s, |p| + k);
    if n > 0 {
      if k + n <= |tok| {
        assert s[|p| + k..|p| + k + n] == tok[k..k + n];
        WhitespaceLenLocal(s, |p| + k, tok, k);
        assert false;
      } else {
        assert false;
      }
    }
  }

  /** Skipping the whitespace of `p` from `i` is the same inside any `p + rest`. */
  lemma {:induction false} SkipThroughPrefix(p: seq<Byte>, rest: seq<Byte>, i: nat)
    requires i <= |p| && SkipWhitespace(p, i) == |p|
    ensures SkipWhitespace(p + rest, i) == SkipWhitespace(p + rest, |p|)
    decreases |p| - i
  {
    if i < |p| {
      var n := WhitespaceLen(p, i);
      assert n > 0;
      assert p[i..i + n] == (p + rest)[i..i + n];
      WhitespaceLenLocal(p, i, p + rest, i);
      SkipThroughPrefix(p, rest, i + n);
    }
  }

  /** In `p + tok + q` the token starts where the whitespace of `p` ends. */
  lemma SkipToToken(p: seq<Byte>, tok: seq<Byte>, q: seq<Byte>)
    requires AllWhitespace(p) && |tok| > 0 && NoWhitespace(tok) && EndsToken(q)
    ensures SkipWhitespace(p + tok + q, 0) == |p|
  {
    SkipThroughPrefix(p, tok + q, 0);
    assert p + tok + q == p + (tok + q);
    NoWhitespaceInContext(p, tok, q, 0);
  }

  /** In `p + tok + q` the token ends where `q` begins. */
  lemma TokenEndAtTail(p: seq<Byte>, tok: seq<Byte>, q: seq<Byte>)
    requires NoWhitespace(tok) && EndsToken(q)
    ensures TokenEnd(p + tok + q, |p|) == |p| + |tok|
  {
    var s := p + tok + q;
    forall j | |p| <= j < |p| + |tok| ensures WhitespaceLen(s, j) == 0 {
      NoWhitespaceInContext(p, tok, q, j - |p|);
    }
    if q != [] {
      var n := WhitespaceLen(q, 0);
      assert s[|p| + |tok|..|p| + |tok| + n] == q[0..n];
      WhitespaceLenLocal(q, 0, s, |p| + |tok|);
    }
  }

  /** A non-empty whitespace-free token between leading whitespace and whitespace (or the end) is the first token. */
  lemma FirstTokenOfShape(p: seq<Byte>, tok: seq<Byte>, q: seq<Byte>)
    requires AllWhitespace(p) && |tok| > 0 && NoWhitespace(tok) && EndsToken(q)
    ensures FirstToken(p + tok + q) == Some(tok)
  {
    var s := p + tok + q;
    SkipToToken(p, tok, q);
    TokenEndAtTail(p, tok, q);
    assert s[|p|..|p| + |tok|] == tok;
  }

  /** An ASCII token followed by nothing or by ASCII whitespace is the first token. */
  lemma FirstTokenOfAscii(tok: seq<Byte>, tail: seq<Byte>)
    requires |tok| > 0 && IsAscii(tok) && IsAscii(tail)
    requires forall k :: 0 <= k < |tok| ==> !IsAsciiWhitespace(tok[k])
    requires tail == [] || IsAsciiWhitespace(tail[0])
    ensures FirstToken(tok + tail) == Some(tok)
  {
    var s := tok + tail;
    assert s[0] == tok[0];
    assert SkipWhitespace(s, 0) == 0;
    assert forall k :: 0 <= k < |tok| ==> s[k] == tok[k];
    assert forall k :: 0 <= k < |tok| ==> WhitespaceLen(s, k) == 0;
    if tail != [] {
      assert s[|tok|] == tail[0];
      assert WhitespaceLen(s, |tok|) > 0;
    }
    var en := TokenEnd(s, 0);
    if en < |tok| {
      assert false;
    } else if en > |tok| {
      assert false;
    }
    assert s[..|tok|] == tok;
  }

  /** Field separators of the source: `:` and `_`. */
  predicate IsSeparator(b: Byte) {
    b == 0x3A || b == 0x5F
  }

  /** `rsplit([':', '_']).next()`: the longest suffix of `t` without a separator. */
  function LastField(t: seq<Byte>): (f: seq<Byte>)
    ensures |f| <= |t| && f == t[|t| - |f|..]
    ensures forall k :: 0 <= k < |f| ==> !IsSeparator(f[k])
    ensures |f| < |t| ==> IsSeparator(t[|t| - |f| - 1])
    decreases |t|
  {
    if |t| == 0 || IsSeparator(t[|t| - 1]) then []
    else LastField(t[..|t| - 1]) + [t[|t| - 1]]
  }

  /** Whatever precedes a separator, the field after the last one is recovered. */
  lemma {:induction false} LastFieldAfterSeparator(prefix: seq<Byte>, sep: Byte, field: seq<Byte>)
    requires IsSeparator(sep)
    requires forall k :: 0 <= k < |field| ==> !IsSeparator(field[k])
    ensures LastField(prefix + [sep] + field) == field
    decreases |field|
  {
    var t := prefix + [sep] + field;
    if |field| > 0 {
      var last := |field| - 1;
      assert t[..|t| - 1] == prefix + [sep] + field[..last];
      LastFieldAfterSeparator(prefix, sep, field[..last]);
      assert field == field[..last] + [field[last]];
    }
  }

  predicate IsAsciiLower(b: Byte) {
    0x61 <= b <= 0x7A
  }

  /** `to_ascii_uppercase` on one byte. */
  function UpperByte(b: Byte): (u: Byte)
    ensures !IsAsciiLower(u)
    ensures u != b ==> IsAsciiLower(b) && u == b - 0x20
  {
    if IsAsciiLower(b) then b - 0x20 else b
  }

  /** `to_ascii_uppercase`: lower-case ASCII letters become upper-case, every other byte stays. */
  function AsciiUppercase(s: seq<Byte>): (r: seq<Byte>)
    ensures |r| == |s|
    ensures forall k :: 0 <= k < |r| ==> !IsAsciiLower(r[k])
    ensures forall k :: 0 <= k < |r| && r[k] != s[k] ==> IsAsciiLower(s[k]) && r[k] == s[k] - 0x20
  {
    seq(|s|, k requires 0 <= k < |s| => UpperByte(s[k]))
  }

  /** Upper-casing twice is upper-casing once. */
  lemma AsciiUppercaseIdempotent(s: seq<Byte>)
    ensures AsciiUppercase(AsciiUppercase(s)) == AsciiUppercase(s)
  {
  }

  /** Bytes that are not lower-case letters are left alone. */
  lemma AsciiUppercaseKeepsUpper(s: seq<Byte>)
    requires forall k :: 0 <= k < |s| ==> !IsAsciiLower(s[k])
    ensures AsciiUppercase(s) == s
  {
  }

  /** What the extraction yields; `LengthMismatch` is the source's panic. */
  datatype Extraction = NoUmi | Umi(umi: seq<Byte>) | LengthMismatch(expected: nat, found: nat)

  /** `extract_umi_from_header(header, expected)`. */
  function ExtractUmiFromHeader(header: seq<Byte>, expected: nat): (r: Extraction)
    ensures r == NoUmi <==> !ValidUtf8(header) || FirstToken(header).None?
    ensures r.Umi? ==> |r.umi| == expected && forall k :: 0 <= k < |r.umi| ==> !IsAsciiLower(r.umi[k])
    ensures r.LengthMismatch? ==> r.expected == expected && r.found != expected
  {
    if !ValidUtf8(header) then NoUmi
    else match FirstToken(header)
      case None => NoUmi
      case Some(token) =>
        var field := LastField(token);
        if |field| != expected then LengthMismatch(expected, |field|)
        else Umi(AsciiUppercase(field))
  }

  /**
   * A header built as `id`, a separator, the UMI and an optional
   * whitespace-led comment yields the upper-cased UMI when its length is
   * expected, and the length mismatch otherwise.
   */
  lemma ExtractFromBuiltHeader(id: seq<Byte>, sep: Byte, umi: seq<Byte>, comment: seq<Byte>, expected: nat)
    requires IsSeparator(sep)
    requires IsAscii(id) && IsAscii(umi) && IsAscii(comment)
    requires forall k :: 0 <= k < |id| ==> !IsAsciiWhitespace(id[k])
    requires forall k :: 0 <= k < |umi| ==> !IsAsciiWhitespace(umi[k]) && !IsSeparator(umi[k])
    requires comment == [] || IsAsciiWhitespace(comment[0])
    ensures expected == |umi| ==> ExtractUmiFromHeader(id + [sep] + umi + comment, expected) == Umi(AsciiUppercase(umi))
    ensures expected != |umi| ==> ExtractUmiFromHeader(id + [sep] + umi + comment, expected) == LengthMismatch(expected, |umi|)
  {
    var tok := id + [sep] + umi;
    assert forall k :: 0 <= k < |tok| ==> tok[k] == if k < |id| then id[k] else if k == |id| then sep else umi[k - |id| - 1];
    AsciiIsValidUtf8(tok + comment);
    FirstTokenOfAscii(tok, comment);
    LastFieldAfterSeparator(id, sep, umi);
  }

  /** A token without a separator is its own last field: `rsplit` then yields the whole token. */
  lemma LastFieldWithoutSeparator(t: seq<Byte>)
    requires forall k :: 0 <= k < |t| ==> !IsSeparator(t[k])
    ensures LastField(t) == t
  {
  }

  /**
   * For any valid header made of leading whitespace, a token, and whitespace or
   * the end, the extraction depends on the token's last field alone: that field
   * upper-cased when its length is the expected one, the length mismatch otherwise.
   */
  lemma ExtractFromShape(p: seq<Byte>, tok: seq<Byte>, q: seq<Byte>, expected: nat)
    requires ValidUtf8(p + tok + q)
    requires AllWhitespace(p) && |tok| > 0 && NoWhitespace(tok) && EndsToken(q)
    ensures |LastField(tok)| == expected ==> ExtractUmiFromHeader(p + tok + q, expected) == Umi(AsciiUppercase(LastField(tok)))
    ensures |LastField(tok)| != expected ==> ExtractUmiFromHeader(p + tok + q, expected) == LengthMismatch(expected, |LastField(tok)|)
  {
    FirstTokenOfShape(p, tok, q);
  }

  /** A header of whitespace only, such as a space and a tab, has no token and so no UMI. */
  lemma WhitespaceOnlyHeader(expected: nat)
    ensures ExtractUmiFromHeader([0x20, 0x09], expected) == NoUmi
  {
    assert SkipWhitespace([0x20, 0x09], 1) == 2;
  }

  /** An ideographic space (U+3000) and a space, then the token `acgt` and a comment. */
  const WideSpace: seq<Byte> := [0xE3, 0x80, 0x80, 0x20]
  const LowerAcgt: seq<Byte> := [0x61, 0x63, 0x67, 0x74]
  const Comment: seq<Byte> := [0x20, 0x72]

  /** The ideographic space and the space are whitespace. */
  lemma WideSpaceIsWhitespace()
    ensures AllWhitespace(WideSpace)
  {
    assert SkipWhitespace(WideSpace, 3) == 4;
  }

  /** Upper-casing `acgt` gives `ACGT`. */
  lemma LowerAcgtUppercased()
    ensures AsciiUppercase(LowerAcgt) == R1Umi
  {
    var u := AsciiUppercase(LowerAcgt);
    assert u[0] == 0x41 && u[1] == 0x43 && u[2] == 0x47 && u[3] == 0x54;
  }

  /** A three-byte character, then ASCII, is valid UTF-8. */
  lemma WideHeaderIsValid(h: seq<Byte>)
    requires h == WideSpace + LowerAcgt + Comment
    ensures ValidUtf8(h)
  {
    assert h[..3] == [0xE3, 0x80, 0x80];
    assert Utf8CharLen(h, 0) == 3;
    AsciiIsValidUtf8From(h, 3);
  }

  /**
   * Non-ASCII leading whitespace is skipped, and a token with no separator is
   * the UMI as a whole, upper-cased: `"\u{3000} acgt r"` yields `ACGT`.
   */
  lemma NonAsciiWhitespaceHeader(h: seq<Byte>)
    requires h == WideSpace + LowerAcgt + Comment
    ensures ExtractUmiFromHeader(h, 4) == Umi(R1Umi)
  {
    WideSpaceIsWhitespace();
    WideHeaderIsValid(h);
    LastFieldWithoutSeparator(LowerAcgt);
    ExtractFromShape(WideSpace, LowerAcgt, Comment, 4);
    LowerAcgtUppercased();
  }

  /** A first token that ends in a separator has an empty UMI: the source panics unless it expects length 0. */
  lemma TrailingSeparatorAborts(header: seq<Byte>, expected: nat)
    requires ValidUtf8(header) && FirstToken(header).Some?
    requires IsSeparator(FirstToken(header).value[|FirstToken(header).value| - 1])
    requires expected > 0
    ensures ExtractUmiFromHeader(header, expected) == LengthMismatch(expected, 0)
  {
  }

  /** The header of the source's unit test, `b"READ_12345:ACGTACGTACGT"`, split at its `:`. */
  const ExampleId: seq<Byte> := [0x52, 0x45, 0x41, 0x44, 0x5F, 0x31, 0x32, 0x33, 0x34, 0x35]

  /** The pieces of the example header satisfy what `ExtractFromBuiltHeader` asks of them. */
  lemma ExamplePieces()
    ensures IsAscii(ExampleId) && IsAscii(ExampleUmi)
    ensures forall k :: 0 <= k < |ExampleId| ==> !IsAsciiWhitespace(ExampleId[k])
    ensures forall k :: 0 <= k < |ExampleUmi| ==> !IsAsciiWhitespace(ExampleUmi[k]) && !IsSeparator(ExampleUmi[k])
    ensures forall k :: 0 <= k < |ExampleUmi| ==> !IsAsciiLower(ExampleUmi[k])
  {
  }

  /** The unit test of the source: `READ_12345:ACGTACGTACGT` with length 12. */
  lemma ExtractExample()
    ensures ExtractUmiFromHeader(ExampleId + [0x3A] + ExampleUmi, 12) == Umi(ExampleUmi)
  {
    assert ExampleId + [0x3A] + ExampleUmi == ExampleId + [0x3A] + ExampleUmi + [];
    ExamplePieces();
    ExtractFromBuiltHeader(ExampleId, 0x3A, ExampleUmi, [], 12);
    AsciiUppercaseKeepsUpper(ExampleUmi);
  }

  /** `b"r1"` and `b"r2"`, the read names of the two headers in the unit test of `process_batch` (their UMIs are `R1Umi` and `R2Umi`). */
  const R1Id: seq<Byte> := [0x72, 0x31]
  const R2Id: seq<Byte> := [0x72, 0x32]

  /** The pieces of those headers satisfy what `ExtractFromBuiltHeader` asks of them. */
  lemma RoutingPieces()
    ensures IsAscii(R1Id) && IsAscii(R1Umi) && IsAscii(R2Id) && IsAscii(R2Umi)
    ensures forall k :: 0 <= k < |R1Id| ==> !IsAsciiWhitespace(R1Id[k])
    ensures forall k :: 0 <= k < |R2Id| ==> !IsAsciiWhitespace(R2Id[k])
    ensures forall k :: 0 <= k < |R1Umi| ==> !IsAsciiWhitespace(R1Umi[k]) && !IsSeparator(R1Umi[k]) && !IsAsciiLower(R1Umi[k])
    ensures forall k :: 0 <= k < |R2Umi| ==> !IsAsciiWhitespace(R2Umi[k]) && !IsSeparator(R2Umi[k]) && !IsAsciiLower(R2Umi[k])
  {
  }

  /** The headers of that test, `r1:ACGT` and `r2:TTTT`, yield their UMIs at length 4. */
  lemma RoutingHeaders()
    ensures ExtractUmiFromHeader(R1Id + [0x3A] + R1Umi, 4) == Umi(R1Umi)
    ensures ExtractUmiFromHeader(R2Id + [0x3A] + R2Umi, 4) == Umi(R2Umi)
  {
    assert R1Id + [0x3A] + R1Umi == R1Id + [0x3A] + R1Umi + [];
    assert R2Id + [0x3A] + R2Umi == R2Id + [0x3A] + R2Umi + [];
    RoutingPieces();
    ExtractFromBuiltHeader(R1Id, 0x3A, R1Umi, [], 4);
    ExtractFromBuiltHeader(R2Id, 0x3A, R2Umi, [], 4);
    AsciiUppercaseKeepsUpper(R1Umi);
    AsciiUppercaseKeepsUpper(R2Umi);
  }
}
