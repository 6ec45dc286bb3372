/**
 * The record and writer types of `src/io.rs`. A writer is modelled by what it
 * has received so far: the bytes of a FASTQ stream, the alignment records of a
 * BAM stream, or nothing at all for `Sink`, the variant the processing code
 * uses when an output was not requested.
 */
module Io {
  import opened Wrappers
  import opened Bytes

  /** An alignment record of htslib, carried through unchanged; `qname` is its read name. */
  datatype Alignment = Alignment(qname: seq<Byte>, fields: seq<Byte>)

  /** The two `BioRecord` implementations. */
  datatype Record =
    | FastqRecord(head: seq<Byte>, bases: seq<Byte>, qual: Option<seq<Byte>>)
    | BamRecord(rec: Alignment, bases: seq<Byte>)
  {
    /** `BioRecord::header`: the FASTQ id line, or the alignment's read name. */
    function Header(): (h: seq<Byte>)
      ensures this.FastqRecord? ==> h == head
      ensures this.BamRecord? ==> h == rec.qname
    {
      match this
      case FastqRecord(head, _, _) => head
      case BamRecord(rec, _) => rec.qname
    }
  }

  /** `GenericWriter`, by what it has received. */
  datatype Writer =
    | FastqWriter(out: seq<Byte>)
    | BamWriter(written: seq<Alignment>)
    | Sink

  const AT: Byte := 0x40
  const NEWLINE: Byte := 0x0A
  const PLUS: Byte := 0x2B

  /** The quality line written for `qual`: empty when there is none. */
  function QualLine(qual: Option<seq<Byte>>): seq<Byte> {
    match qual
    case None => []
    case Some(q) => q
  }

  /** A line of text: the bytes and a closing newline. */
  function Line(s: seq<Byte>): seq<Byte> {
    s + [NEWLINE]
  }

  /** One FASTQ entry as `write_fastq` emits it: `@head`, the bases, a bare `+`, the qualities, each ending in a newline. */
  function FastqEntry(head: seq<Byte>, bases: seq<Byte>, qual: Option<seq<Byte>>): (e: seq<Byte>)
    ensures |e| == |head| + |bases| + |QualLine(qual)| + 6
    ensures e[0] == AT && e[|e| - 1] == NEWLINE
  {
    [AT] + Line(head) + Line(bases) + Line([PLUS]) + Line(QualLine(qual))
  }

  /** `write_fastq`: a FASTQ writer appends the entry; any other writer is left as it was. */
  function WriteFastq(w: Writer, head: seq<Byte>, bases: seq<Byte>, qual: Option<seq<Byte>>): (w': Writer)
    ensures w'.FastqWriter? == w.FastqWriter?
    ensures !w.FastqWriter? ==> w' == w
  {
    match w
    case FastqWriter(out) => FastqWriter(out + FastqEntry(head, bases, qual))
    case _ => w
  }

  /** `write_bam`: a BAM writer appends the record; any other writer is left as it was. */
  function WriteBam(w: Writer, rec: Alignment): (w': Writer)
    ensures w.BamWriter? ==> w'.BamWriter? && |w'.written| == |w.written| + 1 && w'.written[..|w.written|] == w.written
    ensures w.BamWriter? ==> w'.written[|w.written|] == rec
    ensures !w.BamWriter? ==> w' == w
  {
    match w
    case BamWriter(written) => BamWriter(written + [rec])
    case _ => w
  }

  /** `BioRecord::write_to`. */
  function WriteTo(r: Record, w: Writer): (w': Writer)
    ensures w'.FastqWriter? == w.FastqWriter? && w'.BamWriter? == w.BamWriter?
    ensures w == Sink ==> w' == Sink
  {
    match r
    case FastqRecord(head, bases, qual) => WriteFastq(w, head, bases, qual)
    case BamRecord(rec, _) => WriteBam(w, rec)
  }

  /** Writing the records one after the other, in order. */
  function WriteAll(rs: seq<Record>, w: Writer): (w': Writer)
    ensures w'.FastqWriter? == w.FastqWriter? && w'.BamWriter? == w.BamWriter?
    ensures w == Sink ==> w' == Sink
    decreases |rs|
  {
    if |rs| == 0 then w else WriteTo(rs[|rs| - 1], WriteAll(rs[..|rs| - 1], w))
  }

  lemma {:induction false} WriteAllAppend(a: seq<Record>, b: seq<Record>, w: Writer)
    ensures WriteAll(a + b, w) == WriteAll(b, WriteAll(a, w))
    decreases |b|
  {
    if |b| == 0 {
      assert a + b == a;
    } else {
      var last := |b| - 1;
      assert (a + b)[..|a + b| - 1] == a + b[..last];
      WriteAllAppend(a, b[..last], w);
    }
  }

  predicate AllFastq(rs: seq<Record>) {
    forall i :: 0 <= i < |rs| ==> rs[i].FastqRecord?
  }

  predicate AllBam(rs: seq<Record>) {
    forall i :: 0 <= i < |rs| ==> rs[i].BamRecord?
  }

  /** The FASTQ text of a sequence of FASTQ records. */
  function Entries(rs: seq<Record>): seq<Byte>
    requires AllFastq(rs)
  {
    if |rs| == 0 then [] else FastqEntry(rs[0].head, rs[0].bases, rs[0].qual) + Entries(rs[1..])
  }

  lemma {:induction false} EntriesSnoc(rs: seq<Record>, r: Record)
    requires AllFastq(rs) && r.FastqRecord?
    ensures AllFastq(rs + [r])
    ensures Entries(rs + [r]) == Entries(rs) + FastqEntry(r.head, r.bases, r.qual)
    decreases |rs|
  {
    if |rs| > 0 {
      assert (rs + [r])[1..] == rs[1..] + [r];
      EntriesSnoc(rs[1..], r);
    }
  }

  /** A FASTQ writer receiving FASTQ records ends with their entries appended, in order. */
  lemma {:induction false} WriteAllFastq(rs: seq<Record>, out: seq<Byte>)
    requires AllFastq(rs)
    ensures WriteAll(rs, FastqWriter(out)) == FastqWriter(out + Entries(rs))
    decreases |rs|
  {
    if |rs| > 0 {
      var init, r := rs[..|rs| - 1], rs[|rs| - 1];
      assert AllFastq(init) && r.FastqRecord?;
      WriteAllFastq(init, out);
      EntriesSnoc(init, r);
      assert init + [r] == rs;
      WriteFastqAppends(r, out, Entries(init));
    }
  }

  /** The step of `WriteAllFastq`: one more FASTQ record appends its entry. */
  lemma WriteFastqAppends(r: Record, out: seq<Byte>, prior: seq<Byte>)
    requires r.FastqRecord?
    ensures WriteTo(r, FastqWriter(out + prior)) == FastqWriter(out + (prior + FastqEntry(r.head, r.bases, r.qual)))
  {
    assert out + prior + FastqEntry(r.head, r.bases, r.qual) == out + (prior + FastqEntry(r.head, r.bases, r.qual));
  }

  /** The alignments of a sequence of BAM records. */
  function Alignments(rs: seq<Record>): (a: seq<Alignment>)
    requires AllBam(rs)
    ensures |a| == |rs| && forall i :: 0 <= i < |rs| ==> a[i] == rs[i].rec
  {
    seq(|rs|, i requires 0 <= i < |rs| => rs[i].rec)
  }

  /** A BAM writer receiving BAM records ends with their alignments appended, in order. */
  lemma {:induction false} WriteAllBam(rs: seq<Record>, written: seq<Alignment>)
    requires AllBam(rs)
    ensures WriteAll(rs, BamWriter(written)) == BamWriter(written + Alignments(rs))
    decreases |rs|
  {
    if |rs| > 0 {
      var init := rs[..|rs| - 1];
      WriteAllBam(init, written);
      assert Alignments(rs) == Alignments(init) + [rs[|rs| - 1].rec];
    }
  }

  /** Records of the other format leave a writer unchanged. */
  lemma {:induction false} WriteAllIgnoresOtherFormat(rs: seq<Record>, w: Writer)
    requires (w.FastqWriter? && AllBam(rs)) || (w.BamWriter? && AllFastq(rs))
    ensures WriteAll(rs, w) == w
    decreases |rs|
  {
    if |rs| > 0 {
      WriteAllIgnoresOtherFormat(rs[..|rs| - 1], w);
    }
  }

  predicate NoNewline(s: seq<Byte>) {
    forall k :: 0 <= k < |s| ==> s[k] != NEWLINE
  }

  /** First newline at or after `i`, or the end. */
  function LineEnd(s: seq<Byte>, i: nat): (j: nat)
    requires i <= |s|
    ensures i <= j <= |s|
    ensures forall k :: i <= k < j ==> s[k] != NEWLINE
    ensures j == |s| || s[j] == NEWLINE
    decreases |s| - i
  {
    if i < |s| && s[i] != NEWLINE then LineEnd(s, i + 1) else i
  }

  /** A line without a newline, followed by a newline, ends where that newline is. */
  lemma LineEndAt(s: seq<Byte>, i: nat, j: nat)
    requires i <= j < |s|
    requires forall k :: i <= k < j ==> s[k] != NEWLINE
    requires s[j] == NEWLINE
    ensures LineEnd(s, i) == j
  {
  }

  /** Splits off the first line, without its newline; `None` when no newline is left. */
  function ReadLine(s: seq<Byte>): (r: Option<(seq<Byte>, seq<Byte>)>)
    ensures r.Some? ==> NoNewline(r.value.0) && s == Line(r.value.0) + r.value.1
    ensures r.None? <==> NoNewline(s)
  {
    var j := LineEnd(s, 0);
    if j == |s| then None
    else
      assert s == Line(s[..j]) + s[j + 1..];
      Some((s[..j], s[j + 1..]))
  }

  lemma ReadLineRoundTrip(line: seq<Byte>, rest: seq<Byte>)
    requires NoNewline(line)
    ensures ReadLine(Line(line) + rest) == Some((line, rest))
  {
    var s := Line(line) + rest;
    assert s[|line|] == NEWLINE;
    LineEndAt(s, 0, |line|);
    assert s[..|line|] == line && s[|line| + 1..] == rest;
  }

  /** The fields of one FASTQ entry: header, bases, qualities. */
  datatype Fields = Fields(head: seq<Byte>, bases: seq<Byte>, qual: seq<Byte>)

  /** Reads one entry in the shape `FastqEntry` writes, returning its fields and the bytes after it. */
  function ParseEntry(s: seq<Byte>): (r: Option<(Fields, seq<Byte>)>)
    ensures r.Some? ==> |r.value.1| < |s|
  {
    if |s| == 0 || s[0] != AT then None
    else match ReadLine(s[1..])
      case None => None
      case Some((head, s1)) => match ReadLine(s1)
        case None => None
        case Some((bases, s2)) => match ReadLine(s2)
          case None => None
          case Some((plus, s3)) =>
            if plus != [PLUS] then None
            else match ReadLine(s3)
              case None => None
              case Some((qual, rest)) => Some((Fields(head, bases, qual), rest))
  }

  /** Whatever `ParseEntry` accepts is an entry `write_fastq` could have written, followed by the rest. */
  lemma ParseEntrySound(s: seq<Byte>)
    requires ParseEntry(s).Some?
    ensures var (f, rest) := ParseEntry(s).value;
      NoNewline(f.head) && NoNewline(f.bases) && NoNewline(f.qual)
      && s == FastqEntry(f.head, f.bases, Some(f.qual)) + rest
  {
    var (head, s1) := ReadLine(s[1..]).value;
    var (bases, s2) := ReadLine(s1).value;
    var (plus, s3) := ReadLine(s2).value;
    var (qual, rest) := ReadLine(s3).value;
    assert ParseEntry(s).value == (Fields(head, bases, qual), rest);
    EntryFromLines(s, head, s1, bases, s2, s3, qual, rest);
  }

  /** Four lines after an `@`, the third being `+`, make up one entry. */
  lemma EntryFromLines(s: seq<Byte>, head: seq<Byte>, s1: seq<Byte>, bases: seq<Byte>, s2: seq<Byte>, s3: seq<Byte>, qual: seq<Byte>, rest: seq<Byte>)
    requires |s| > 0 && s[0] == AT
    requires s[1..] == Line(head) + s1 && s1 == Line(bases) + s2 && s2 == Line([PLUS]) + s3 && s3 == Line(qual) + rest
    ensures s == FastqEntry(head, bases, Some(qual)) + rest
  {
    assert s == [AT] + s[1..];
    Regroup([AT], Line(head), Line(bases), Line([PLUS]), Line(qual), rest);
  }

  lemma Regroup<T>(a: seq<T>, b: seq<T>, c: seq<T>, d: seq<T>, e: seq<T>, f: seq<T>)
    ensures a + (b + (c + (d + (e + f)))) == a + b + c + d + e + f
  {
  }

  /** An entry whose fields hold no newline reads back, whatever follows it. */
  lemma ParseEntryRoundTrip(head: seq<Byte>, bases: seq<Byte>, qual: Option<seq<Byte>>, rest: seq<Byte>)
    requires NoNewline(head) && NoNewline(bases) && NoNewline(QualLine(qual))
    ensures ParseEntry(FastqEntry(head, bases, qual) + rest) == Some((Fields(head, bases, QualLine(qual)), rest))
  {
    var s4 := Line(QualLine(qual)) + rest;
    var s3 := Line([PLUS]) + s4;
    var s2 := Line(bases) + s3;
    var s1 := Line(head) + s2;
    assert FastqEntry(head, bases, qual) + rest == [AT] + s1;
    assert ([AT] + s1)[1..] == s1;
    ReadLineRoundTrip(head, s2);
    ReadLineRoundTrip(bases, s3);
    ReadLineRoundTrip([PLUS], s4);
    ReadLineRoundTrip(QualLine(qual), rest);
  }

  /** A missing quality string is written exactly as an empty one. */
  lemma MissingQualityIsEmpty(head: seq<Byte>, bases: seq<Byte>)
    ensures FastqEntry(head, bases, None) == FastqEntry(head, bases, Some([]))
  {
  }

  /** An entry opens with `@` and the header, so the header can be found in the written text. */
  lemma EntryOpensWithHeader(head: seq<Byte>, bases: seq<Byte>, qual: Option<seq<Byte>>)
    ensures FastqEntry(head, bases, qual)[..1 + |head|] == [AT] + head
  {
  }

  /** Reads a whole FASTQ text, entry by entry. */
  function ParseFastq(s: seq<Byte>): (r: Option<seq<Fields>>)
    decreases |s|
  {
    if |s| == 0 then Some([])
    else match ParseEntry(s)
      case None => None
      case Some((f, rest)) =>
        match ParseFastq(rest)
        case None => None
        case Some(fs) => Some([f] + fs)
  }

  /** The fields a FASTQ record is written with. */
  function FieldsOf(r: Record): Fields
    requires r.FastqRecord?
  {
    Fields(r.head, r.bases, QualLine(r.qual))
  }

  predicate Writable(rs: seq<Record>) {
    && AllFastq(rs)
    && forall i :: 0 <= i < |rs| ==> NoNewline(rs[i].head) && NoNewline(rs[i].bases) && NoNewline(QualLine(rs[i].qual))
  }

  /** The fields of each record, in order. */
  function AllFields(rs: seq<Record>): (fs: seq<Fields>)
    requires AllFastq(rs)
    ensures |fs| == |rs| && forall i :: 0 <= i < |rs| ==> fs[i] == FieldsOf(rs[i])
  {
    if |rs| == 0 then [] else [FieldsOf(rs[0])] + AllFields(rs[1..])
  }

  /** One more entry in front of a text that parses adds its fields in front of the result. */
  lemma ParseOneMore(r: Record, tail: seq<Byte>, fs: seq<Fields>)
    requires r.FastqRecord? && NoNewline(r.head) && NoNewline(r.bases) && NoNewline(QualLine(r.qual))
    requires ParseFastq(tail) == Some(fs)
    ensures ParseFastq(FastqEntry(r.head, r.bases, r.qual) + tail) == Some([FieldsOf(r)] + fs)
  {
    ParseEntryRoundTrip(r.head, r.bases, r.qual, tail);
  }

  /** What a FASTQ writer receives reads back as the records' fields, in order. */
  lemma {:induction false} FastqOutputRoundTrip(rs: seq<Record>)
    requires Writable(rs)
    ensures ParseFastq(Entries(rs)) == Some(AllFields(rs))
    decreases |rs|
  {
    if |rs| > 0 {
      var r := rs[0];
      assert Entries(rs) == FastqEntry(r.head, r.bases, r.qual) + Entries(rs[1..]);
      assert Writable(rs[1..]) by {
        assert forall i :: 0 <= i < |rs| - 1 ==> rs[1..][i] == rs[i + 1];
      }
      FastqOutputRoundTrip(rs[1..]);
      ParseOneMore(r, Entries(rs[1..]), AllFields(rs[1..]));
    }
  }
}
