/**
 * The command-line front of `src/main.rs`: the input's file type from the
 * suffix of its name, the two output paths derived from an output prefix,
 * and the bound on the mismatch limit.
 *
 * A path is the text of its file name (a `string`); extracting the file name
 * from a full path is not part of this model.
 */
module Cli {
  import opened Wrappers
  import Matcher

  /** The input formats `main` dispatches on. */
  datatype FileType = Fastq | FastqGz | Bam | Sam

  // ---------------------------------------------------------------------------
  // Strings
  // ---------------------------------------------------------------------------

  /** `s` ends with `suffix` (Rust's `str::ends_with`). */
  predicate EndsWith(s: string, suffix: string) {
    |suffix| <= |s| && s[|s| - |suffix|..] == suffix
  }

  /** ASCII lower-casing of one character; every other character is left alone. */
  function LowerChar(ch: char): char {
    if 'A' <= ch <= 'Z' then (ch as int - 'A' as int + 'a' as int) as char else ch
  }

  /** Lower-cases a file name character by character. */
  function Lower(s: string): (r: string)
    ensures |r| == |s|
  {
    seq(|s|, i requires 0 <= i < |s| => LowerChar(s[i]))
  }

  /** Lower-casing commutes with concatenation, so a lower-case suffix survives it. */
  lemma LowerAppend(a: string, b: string)
    ensures Lower(a + b) == Lower(a) + Lower(b)
  {
    assert forall i :: 0 <= i < |a + b| ==> Lower(a + b)[i] == (Lower(a) + Lower(b))[i];
  }

  /** Lower-casing a name twice is lower-casing it once. */
  lemma LowerIdempotent(s: string)
    ensures Lower(Lower(s)) == Lower(s)
  {
    assert forall i :: 0 <= i < |s| ==> Lower(Lower(s))[i] == Lower(s)[i];
  }

  /** A name that ends with `suffix` keeps ending with its lower-case form after lower-casing. */
  lemma EndsWithLower(s: string, suffix: string)
    requires EndsWith(s, suffix)
    ensures EndsWith(Lower(s), Lower(suffix))
  {
    var k := |s| - |suffix|;
    assert s == s[..k] + suffix;
    LowerAppend(s[..k], suffix);
    assert Lower(s)[k..] == Lower(suffix);
  }

  // ---------------------------------------------------------------------------
  // File types and their suffixes
  // ---------------------------------------------------------------------------

  /** `suffix_info`: the canonical suffix written for a type, and the variants accepted for it. */
  function SuffixInfo(t: FileType): (info: (string, seq<string>))
    ensures |info.1| > 0 && info.1[0] == "." + info.0
    ensures forall i :: 0 <= i < |info.1| ==> |info.1[i]| > 0 && info.1[i][0] == '.' && Lower(info.1[i]) == info.1[i]
  {
    match t
    case Fastq => ("fq", [".fq", ".fastq"])
    case FastqGz => ("fq.gz", [".fq.gz", ".fastq.gz"])
    case Bam => ("bam", [".bam"])
    case Sam => ("sam", [".sam"])
  }

  /** `s` ends with one of the `variants`. */
  predicate EndsWithAny(s: string, variants: seq<string>) {
    exists i :: 0 <= i < |variants| && EndsWith(s, variants[i])
  }

  /** The name carries a suffix of type `t`, in any letter case. */
  predicate NamesType(name: string, t: FileType) {
    EndsWithAny(Lower(name), SuffixInfo(t).1)
  }

  /** `FileType::from_path`, on the file name: the checks in the source's order, on the lower-cased name. */
  function FileTypeFromName(name: string): (r: Result<FileType, string>)
    ensures r.Err? ==> r.error == "Unsupported file type: " + Lower(name)
  {
    var fname := Lower(name);
    if EndsWith(fname, ".fq.gz") || EndsWith(fname, ".fastq.gz") then Ok(FastqGz)
    else if EndsWith(fname, ".fq") || EndsWith(fname, ".fastq") then Ok(Fastq)
    else if EndsWith(fname, ".bam") then Ok(Bam)
    else if EndsWith(fname, ".sam") then Ok(Sam)
    else Err("Unsupported file type: " + fname)
  }

  /** A type is reported only for a name carrying one of its suffixes, and an error only when no type's suffix is there. */
  lemma FileTypeFromNameSound(name: string)
    ensures FileTypeFromName(name).Ok? ==> NamesType(name, FileTypeFromName(name).value)
    ensures FileTypeFromName(name).Err? ==> forall t :: !NamesType(name, t)
  {
    var fname := Lower(name);
    if EndsWith(fname, ".fq.gz") {
      assert EndsWith(fname, SuffixInfo(FastqGz).1[0]);
    } else if EndsWith(fname, ".fastq.gz") {
      assert EndsWith(fname, SuffixInfo(FastqGz).1[1]);
    } else if EndsWith(fname, ".fq") {
      assert EndsWith(fname, SuffixInfo(Fastq).1[0]);
    } else if EndsWith(fname, ".fastq") {
      assert EndsWith(fname, SuffixInfo(Fastq).1[1]);
    } else if EndsWith(fname, ".bam") {
      assert EndsWith(fname, SuffixInfo(Bam).1[0]);
    } else if EndsWith(fname, ".sam") {
      assert EndsWith(fname, SuffixInfo(Sam).1[0]);
    } else {
      forall t ensures !NamesType(name, t) {
        var vs := SuffixInfo(t).1;
        forall i | 0 <= i < |vs| ensures !EndsWith(fname, vs[i]) {
          match t
          case Fastq => assert vs[i] == ".fq" || vs[i] == ".fastq";
          case FastqGz => assert vs[i] == ".fq.gz" || vs[i] == ".fastq.gz";
          case Bam => assert vs[i] == ".bam";
          case Sam => assert vs[i] == ".sam";
        }
      }
    }
  }

  /** The last character of every suffix of a type, and for the two alignment types the one that tells them apart. */
  function Tag(t: FileType): char {
    match t
    case Fastq => 'q'
    case FastqGz => 'z'
    case Bam => 'm'
    case Sam => 'm'
  }

  lemma VariantShape(t: FileType, i: nat)
    requires i < |SuffixInfo(t).1|
    ensures var v := SuffixInfo(t).1[i];
      && v[|v| - 1] == Tag(t)
      && (t.Bam? || t.Sam? ==> |v| == 4 && v[1] == (if t.Bam? then 'b' else 's'))
  {
  }

  /** Suffixes of one string agree on their common tail. */
  lemma CommonTail(s: string, a: string, b: string, k: nat)
    requires EndsWith(s, a) && EndsWith(s, b) && k < |a| && k < |b|
    ensures a[|a| - 1 - k] == b[|b| - 1 - k]
  {
    assert a[|a| - 1 - k] == s[|s| - |a|..][|a| - 1 - k] == s[|s| - 1 - k];
    assert b[|b| - 1 - k] == s[|s| - |b|..][|b| - 1 - k] == s[|s| - 1 - k];
  }

  /** No name carries the suffixes of two different types: the checks' order never decides anything. */
  lemma SuffixesExclusive(name: string, t: FileType, u: FileType)
    requires NamesType(name, t) && NamesType(name, u)
    ensures t == u
  {
    var s := Lower(name);
    var i :| 0 <= i < |SuffixInfo(t).1| && EndsWith(s, SuffixInfo(t).1[i]);
    var j :| 0 <= j < |SuffixInfo(u).1| && EndsWith(s, SuffixInfo(u).1[j]);
    var a, b := SuffixInfo(t).1[i], SuffixInfo(u).1[j];
    VariantShape(t, i);
    VariantShape(u, j);
    CommonTail(s, a, b, 0);
    if Tag(t) == 'm' {
      CommonTail(s, a, b, 2);
    }
  }

  /** A name is of type `t` exactly when it carries one of `t`'s suffixes, in any letter case. */
  lemma FileTypeFromNameExact(name: string, t: FileType)
    ensures FileTypeFromName(name) == Ok(t) <==> NamesType(name, t)
  {
    FileTypeFromNameSound(name);
    var r := FileTypeFromName(name);
    if NamesType(name, t) && r.Ok? {
      SuffixesExclusive(name, r.value, t);
    }
  }

  // ---------------------------------------------------------------------------
  // Output paths
  // ---------------------------------------------------------------------------

  /** `k` copies of `pat`. */
  function Repeat(pat: string, k: nat): (r: string)
    ensures |r| == k * |pat|
  {
    if k == 0 then [] else Repeat(pat, k - 1) + pat
  }

  /** Rust's `trim_end_matches` with a string pattern: strips every trailing copy of `pat`. */
  function TrimEndMatches(s: string, pat: string): (r: string)
    ensures |r| <= |s|
    decreases |s|
  {
    if |pat| > 0 && EndsWith(s, pat) then TrimEndMatches(s[..|s| - |pat|], pat) else s
  }

  /** One more trailing copy of `pat` on top of `r` and `k` copies. */
  lemma TrimStep(s: string, pat: string, r: string, k: nat)
    requires EndsWith(s, pat) && s[..|s| - |pat|] == r + Repeat(pat, k)
    ensures s == r + Repeat(pat, k + 1)
  {
    assert s == s[..|s| - |pat|] + pat;
    assert Repeat(pat, k + 1) == Repeat(pat, k) + pat;
  }

  /** What is stripped is a run of copies of `pat`, and what is left no longer ends with `pat`. */
  lemma {:induction false} TrimEndMatchesSpec(s: string, pat: string)
    requires |pat| > 0
    ensures !EndsWith(TrimEndMatches(s, pat), pat)
    ensures exists k: nat :: s == TrimEndMatches(s, pat) + Repeat(pat, k)
    decreases |s|
  {
    if EndsWith(s, pat) {
      var t := s[..|s| - |pat|];
      TrimEndMatchesSpec(t, pat);
      var k: nat :| t == TrimEndMatches(t, pat) + Repeat(pat, k);
      TrimStep(s, pat, TrimEndMatches(t, pat), k);
    } else {
      assert s == s + Repeat(pat, 0);
    }
  }

  /** The first of `variants` that `s` ends with (the source's `find`). */
  function FirstEnding(s: string, variants: seq<string>): (r: Option<nat>)
    ensures r.Some? ==>
      && r.value < |variants| && EndsWith(s, variants[r.value])
      && forall j :: 0 <= j < r.value ==> !EndsWith(s, variants[j])
    ensures r.None? <==> !EndsWithAny(s, variants)
    decreases |variants|
  {
    if |variants| == 0 then None
    else if EndsWith(s, variants[0]) then Some(0)
    else match FirstEnding(s, variants[1..])
      case None =>
        assert forall i :: 1 <= i < |variants| ==> variants[i] == variants[1..][i - 1];
        None
      case Some(i) =>
        assert forall j :: 1 <= j < i + 1 ==> variants[j] == variants[1..][j - 1];
        Some(i + 1)
  }

  /** The prefix with every trailing copy of the first variant it ends with stripped, or the prefix as is. */
  function OutputBase(t: FileType, prefix: string): (base: string)
    ensures |base| <= |prefix|
  {
    var variants := SuffixInfo(t).1;
    match FirstEnding(prefix, variants)
    case Some(i) => TrimEndMatches(prefix, variants[i])
    case None => prefix
  }

  /** `build_output_paths`: the path for kept reads and the path for removed reads. */
  function BuildOutputPaths(t: FileType, prefix: string): (paths: (string, string))
    ensures |paths.0| <= |prefix| + |SuffixInfo(t).0| + 1
    ensures |paths.1| == |paths.0| + 8
  {
    var base := OutputBase(t, prefix);
    var suffix := SuffixInfo(t).0;
    (base + "." + suffix, base + ".removed." + suffix)
  }

  /** The base is the prefix when it ends with no variant, and otherwise the prefix minus a run of the first variant it ends with. */
  lemma OutputBaseSpec(t: FileType, prefix: string)
    ensures !EndsWithAny(prefix, SuffixInfo(t).1) ==> OutputBase(t, prefix) == prefix
    ensures EndsWithAny(prefix, SuffixInfo(t).1) ==>
      var v := SuffixInfo(t).1[FirstEnding(prefix, SuffixInfo(t).1).value];
      && !EndsWith(OutputBase(t, prefix), v)
      && exists k: nat :: k > 0 && prefix == OutputBase(t, prefix) + Repeat(v, k)
  {
    var variants := SuffixInfo(t).1;
    if EndsWithAny(prefix, variants) {
      var v := variants[FirstEnding(prefix, variants).value];
      TrimEndMatchesSpec(prefix, v);
      var k: nat :| prefix == TrimEndMatches(prefix, v) + Repeat(v, k);
      assert k > 0;
    }
  }

  /** The output base is taken from the front of the output prefix. */
  lemma OutputBaseIsPrefix(t: FileType, prefix: string)
    ensures OutputBase(t, prefix) == prefix[..|OutputBase(t, prefix)|]
  {
    OutputBaseSpec(t, prefix);
    var base := OutputBase(t, prefix);
    if EndsWithAny(prefix, SuffixInfo(t).1) {
      var v := SuffixInfo(t).1[FirstEnding(prefix, SuffixInfo(t).1).value];
      var k: nat :| prefix == base + Repeat(v, k);
      assert prefix[..|base|] == base;
    }
  }

  /** Dropping `.` and the suffix from `base.suffix` gives the base back. */
  lemma DropSuffix(base: string, suffix: string)
    ensures var p := base + "." + suffix; p[..|p| - |suffix| - 1] == base
  {
    var p := base + "." + suffix;
    assert p[..|base|] == base;
  }

  /**
   * The two output paths share one base, taken from the front of the output
   * prefix, and differ only in the `.removed` before the canonical suffix.
   */
  lemma OutputPathsShareBase(t: FileType, prefix: string)
    ensures var (kept, removed) := BuildOutputPaths(t, prefix);
      var suffix := SuffixInfo(t).0;
      var base := kept[..|kept| - |suffix| - 1];
      && base == prefix[..|base|]
      && kept == base + "." + suffix
      && removed == base + ".removed." + suffix
  {
    OutputBaseIsPrefix(t, prefix);
    DropSuffix(OutputBase(t, prefix), SuffixInfo(t).0);
  }

  /** Both output paths carry the input's own canonical suffix, so they are read back as the same type. */
  lemma OutputPathsKeepType(t: FileType, prefix: string)
    ensures FileTypeFromName(BuildOutputPaths(t, prefix).0) == Ok(t)
    ensures FileTypeFromName(BuildOutputPaths(t, prefix).1) == Ok(t)
  {
    var base, suffix := OutputBase(t, prefix), SuffixInfo(t).0;
    var v := SuffixInfo(t).1[0];
    assert v == "." + suffix;
    assert base + "." + suffix == base + v;
    assert base + ".removed." + suffix == (base + ".removed") + v;
    VariantNamesType(t, 0, base);
    VariantNamesType(t, 0, base + ".removed");
    FileTypeFromNameExact(base + v, t);
    FileTypeFromNameExact(base + ".removed" + v, t);
  }

  /** A name built by appending any accepted suffix of `t` names type `t`. */
  lemma VariantNamesType(t: FileType, i: nat, base: string)
    requires i < |SuffixInfo(t).1|
    ensures NamesType(base + SuffixInfo(t).1[i], t)
  {
    var v := SuffixInfo(t).1[i];
    EndsWithAppended(base, v);
    EndsWithLower(base + v, v);
  }

  lemma EndsWithAppended(base: string, v: string)
    ensures EndsWith(base + v, v)
  {
    assert (base + v)[|base|..] == v;
  }

  /** Two strings that differ `k` places from their ends do not end with one another. */
  lemma TailDiffers(s: string, v: string, k: nat)
    requires k < |s| && k < |v| && s[|s| - 1 - k] != v[|v| - 1 - k]
    ensures !EndsWith(s, v)
  {
  }

  /** Trimming a name that is a base plus one copy of `v` gives the base back, when the base does not end with `v`. */
  lemma TrimOneCopy(base: string, v: string)
    requires |v| > 0 && !EndsWith(base, v)
    ensures TrimEndMatches(base + v, v) == base
  {
    EndsWithAppended(base, v);
    assert (base + v)[..|base + v| - |v|] == base;
  }

  // ---------------------------------------------------------------------------
  // The mismatch limit
  // ---------------------------------------------------------------------------

  /** The largest mismatch limit the command line accepts. */
  const MAX_MISMATCHES: nat := 3

  /** The check at the start of `main`: limits above 3 are refused. */
  function CheckMismatches(m: nat): (r: Result<nat, string>)
    ensures r.Ok? <==> m <= MAX_MISMATCHES
    ensures r.Ok? ==> r.value == m
  {
    if m > MAX_MISMATCHES then Err("Maximum allowed mismatches is 3") else Ok(m)
  }

  /** An accepted limit is one the matcher is defined for: it fits in a `u32` with room for `m + 1`. */
  lemma AcceptedLimitFitsMatcher(m: nat)
    requires CheckMismatches(m).Ok?
    ensures m < Matcher.U32_MAX
  {
  }

  // ---------------------------------------------------------------------------
  // The source's unit tests
  // ---------------------------------------------------------------------------

  // The source's tests of `from_path`, one accepted suffix each.

  lemma FqNameExample()
    ensures FileTypeFromName("reads.fq") == Ok(Fastq)
  {
    ExampleFromName("reads", Fastq, 0, "reads.fq");
  }

  lemma FastqNameExample()
    ensures FileTypeFromName("reads.fastq") == Ok(Fastq)
  {
    ExampleFromName("reads", Fastq, 1, "reads.fastq");
  }

  lemma FqGzNameExample()
    ensures FileTypeFromName("reads.fq.gz") == Ok(FastqGz)
  {
    ExampleFromName("reads", FastqGz, 0, "reads.fq.gz");
  }

  lemma FastqGzNameExample()
    ensures FileTypeFromName("reads.fastq.gz") == Ok(FastqGz)
  {
    ExampleFromName("reads", FastqGz, 1, "reads.fastq.gz");
  }

  lemma BamNameExample()
    ensures FileTypeFromName("reads.bam") == Ok(Bam)
  {
    ExampleFromName("reads", Bam, 0, "reads.bam");
  }

  lemma SamNameExample()
    ensures FileTypeFromName("reads.sam") == Ok(Sam)
  {
    ExampleFromName("reads", Sam, 0, "reads.sam");
  }

  lemma ExampleFromName(base: string, t: FileType, i: nat, name: string)
    requires i < |SuffixInfo(t).1| && name == base + SuffixInfo(t).1[i]
    ensures FileTypeFromName(name) == Ok(t)
  {
    VariantNamesType(t, i, base);
    FileTypeFromNameExact(name, t);
  }

  /** The source's test of an unknown suffix: a name ending in a letter no suffix ends with is refused. */
  lemma UnknownSuffixExample()
    ensures FileTypeFromName("reads.unknown").Err?
  {
    var fname := Lower("reads.unknown");
    assert fname[|fname| - 1] == 'n';
    forall t ensures !NamesType("reads.unknown", t) {
      forall i | 0 <= i < |SuffixInfo(t).1| ensures !EndsWith(fname, SuffixInfo(t).1[i]) {
        VariantShape(t, i);
        TailDiffers(fname, SuffixInfo(t).1[i], 0);
      }
    }
    FileTypeFromNameSound("reads.unknown");
  }

  // The source's tests of `build_output_paths`, one prefix each.

  lemma BareFastqPrefixExample()
    ensures BuildOutputPaths(Fastq, "outprefix") == ("outprefix.fq", "outprefix.removed.fq")
  {
    BareBase(Fastq, "outprefix");
    assert "outprefix" + "." + "fq" == "outprefix.fq";
    assert "outprefix" + ".removed." + "fq" == "outprefix.removed.fq";
  }

  lemma BareBamPrefixExample()
    ensures BuildOutputPaths(Bam, "outprefix") == ("outprefix.bam", "outprefix.removed.bam")
  {
    BareBase(Bam, "outprefix");
    assert "outprefix" + "." + "bam" == "outprefix.bam";
    assert "outprefix" + ".removed." + "bam" == "outprefix.removed.bam";
  }

  /** A prefix ending in a letter no suffix of `t` ends with is used as it is. */
  lemma BareBase(t: FileType, prefix: string)
    requires |prefix| > 0 && prefix[|prefix| - 1] != Tag(t)
    ensures BuildOutputPaths(t, prefix) == (prefix + "." + SuffixInfo(t).0, prefix + ".removed." + SuffixInfo(t).0)
  {
    forall i | 0 <= i < |SuffixInfo(t).1| ensures !EndsWith(prefix, SuffixInfo(t).1[i]) {
      VariantShape(t, i);
      TailDiffers(prefix, SuffixInfo(t).1[i], 0);
    }
  }

  /**
   * The source's tests of a prefix that already carries a suffix, for any base
   * not itself ending like a suffix of the type: the suffix is replaced by the
   * canonical one and never doubled.
   */
  lemma FastqPrefixReplaced(base: string)
    requires |base| > 0 && base[|base| - 1] != 'q'
    ensures BuildOutputPaths(Fastq, base + ".fastq") == (base + ".fq", base + ".removed.fq")
  {
    TailDiffers(base + ".fastq", ".fq", 1);
    SuffixedBase(Fastq, 1, base, base + ".fastq");
    assert base + "." + SuffixInfo(Fastq).0 == base + ".fq";
    assert base + ".removed." + SuffixInfo(Fastq).0 == base + ".removed.fq";
  }

  lemma SamPrefixKept(base: string)
    requires |base| > 0 && base[|base| - 1] != 'm'
    ensures BuildOutputPaths(Sam, base + ".sam") == (base + ".sam", base + ".removed.sam")
  {
    SuffixedBase(Sam, 0, base, base + ".sam");
    assert base + "." + SuffixInfo(Sam).0 == base + ".sam";
    assert base + ".removed." + SuffixInfo(Sam).0 == base + ".removed.sam";
  }

  lemma FqGzPrefixKept(base: string)
    requires |base| > 0 && base[|base| - 1] != 'z'
    ensures BuildOutputPaths(FastqGz, base + ".fq.gz") == (base + ".fq.gz", base + ".removed.fq.gz")
  {
    SuffixedBase(FastqGz, 0, base, base + ".fq.gz");
    assert base + "." + SuffixInfo(FastqGz).0 == base + ".fq.gz";
    assert base + ".removed." + SuffixInfo(FastqGz).0 == base + ".removed.fq.gz";
  }

  lemma FastqGzPrefixReplaced(base: string)
    requires |base| > 0 && base[|base| - 1] != 'z'
    ensures BuildOutputPaths(FastqGz, base + ".fastq.gz") == (base + ".fq.gz", base + ".removed.fq.gz")
  {
    TailDiffers(base + ".fastq.gz", ".fq.gz", 4);
    SuffixedBase(FastqGz, 1, base, base + ".fastq.gz");
    assert base + "." + SuffixInfo(FastqGz).0 == base + ".fq.gz";
    assert base + ".removed." + SuffixInfo(FastqGz).0 == base + ".removed.fq.gz";
  }

  /** A prefix that is a base plus one accepted suffix, the first it ends with, loses exactly that suffix. */
  lemma SuffixedBase(t: FileType, i: nat, base: string, prefix: string)
    requires i < |SuffixInfo(t).1| && prefix == base + SuffixInfo(t).1[i]
    requires |base| > 0 && base[|base| - 1] != Tag(t)
    requires forall j :: 0 <= j < i ==> !EndsWith(prefix, SuffixInfo(t).1[j])
    ensures BuildOutputPaths(t, prefix) == (base + "." + SuffixInfo(t).0, base + ".removed." + SuffixInfo(t).0)
  {
    var v := SuffixInfo(t).1[i];
    EndsWithAppended(base, v);
    VariantShape(t, i);
    TailDiffers(base, v, 0);
    TrimOneCopy(base, v);
  }
}
