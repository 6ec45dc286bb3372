/**
 * The batch pipeline of `src/processing.rs`. Every record is classified by
 * extracting the UMI from its header and searching the read for it; records
 * whose UMI is found go to the "removed" writer, all others to the "kept"
 * writer, in input order. Records are read into batches of `BATCH_SIZE`, each
 * batch classified as a whole before any of it is written.
 *
 * The source classifies a batch in parallel; here the map runs left to right,
 * so when several records of a batch panic, the leftmost panic is the one
 * reported. A panic stops the run; the writers keep what earlier batches wrote.
 */
module Processing {
  import opened Wrappers
  import opened Bytes
  import opened Matcher
  import opened Header
  import opened Io
  import opened Fixtures

  /** Records per batch. */
  const BATCH_SIZE: nat := 10_000

  /** The ways classifying a record can panic. */
  datatype Panic =
    | UmiLengthMismatch(expected: nat, found: nat)   // `extract_umi_from_header`
    | EmptyUmiWindow                                  // `windows(0)` in `is_umi_in_read`
    | MismatchOverflow                                // `max_mismatches + 1` at `u32::MAX`

  /** What `is_umi_in_read` decides, for either kind of limit. */
  ghost predicate Occurs(umi: seq<Byte>, read: seq<Byte>, m: nat) {
    if m == 0 then ExactOccurrence(umi, read) else ApproxOccurrence(umi, read, m)
  }

  /** The panic `is_umi_in_read` runs into outside `MatcherDefined`. */
  function MatcherPanic(umi: seq<Byte>, read: seq<Byte>, m: nat): (p: Panic)
    requires m <= U32_MAX && !MatcherDefined(umi, read, m)
    ensures p == MismatchOverflow <==> m == U32_MAX
    ensures p == EmptyUmiWindow ==> |umi| == 0
  {
    if m == U32_MAX then MismatchOverflow else EmptyUmiWindow
  }

  /** The per-record step of `process_batch`: `true` routes the record to the removed writer. */
  function Classify(r: Record, m: nat, umiLen: nat): (res: Result<bool, Panic>)
    requires m <= U32_MAX
    ensures res == Ok(true) ==> ExtractUmiFromHeader(r.Header(), umiLen).Umi?
    ensures res.Err? ==> !ExtractUmiFromHeader(r.Header(), umiLen).NoUmi?
  {
    match ExtractUmiFromHeader(r.Header(), umiLen)
    case NoUmi => Ok(false)
    case LengthMismatch(expected, found) => Err(UmiLengthMismatch(expected, found))
    case Umi(umi) =>
      if MatcherDefined(umi, r.bases, m) then Ok(IsUmiInRead(umi, r.bases, m))
      else Err(MatcherPanic(umi, r.bases, m))
  }

  /**
   * What the classification means: a record goes to the removed writer exactly
   * when its header yields a UMI that occurs in its read; a header without a
   * UMI sends it to the kept writer; a UMI of the wrong length panics.
   */
  lemma ClassifyDecides(r: Record, m: nat, umiLen: nat)
    requires m <= U32_MAX
    ensures var e := ExtractUmiFromHeader(r.Header(), umiLen);
      && (Classify(r, m, umiLen) == Ok(true) <==> e.Umi? && MatcherDefined(e.umi, r.bases, m) && Occurs(e.umi, r.bases, m))
      && (e == NoUmi ==> Classify(r, m, umiLen) == Ok(false))
      && (e.LengthMismatch? ==> Classify(r, m, umiLen) == Err(UmiLengthMismatch(umiLen, e.found)))
      && (Classify(r, m, umiLen).Err? <==> e.LengthMismatch? || (e.Umi? && !MatcherDefined(e.umi, r.bases, m)))
  {
    var c := Classify(r, m, umiLen);
    match ExtractUmiFromHeader(r.Header(), umiLen)
    case NoUmi =>
      assert c == Ok(false);
    case LengthMismatch(expected, found) =>
      assert c == Err(UmiLengthMismatch(expected, found));
    case Umi(umi) =>
      if MatcherDefined(umi, r.bases, m) {
        assert c == Ok(IsUmiInRead(umi, r.bases, m));
      } else {
        assert c.Err?;
      }
  }

  /** A read shorter than its UMI is kept, whatever the limit: the matcher gives up before it could panic. */
  lemma ShortReadIsKept(r: Record, m: nat, umiLen: nat)
    requires m <= U32_MAX
    requires ExtractUmiFromHeader(r.Header(), umiLen).Umi?
    requires |r.bases| < umiLen
    ensures Classify(r, m, umiLen) == Ok(false)
  {
  }

  /** `f` applied to every element, in order. */
  function Map<A, B>(f: A -> B, xs: seq<A>): (ys: seq<B>)
    ensures |ys| == |xs|
    decreases |xs|
  {
    if |xs| == 0 then [] else [f(xs[0])] + Map(f, xs[1..])
  }

  lemma {:induction false} MapAt<A, B>(f: A -> B, xs: seq<A>, i: nat)
    requires i < |xs|
    ensures Map(f, xs)[i] == f(xs[i])
    decreases |xs|
  {
    if i > 0 {
      MapAt(f, xs[1..], i - 1);
    }
  }

  lemma {:induction false} MapAppend<A, B>(f: A -> B, xs: seq<A>, ys: seq<A>)
    ensures Map(f, xs + ys) == Map(f, xs) + Map(f, ys)
    decreases |xs|
  {
    if |xs| == 0 {
      assert xs + ys == ys;
    } else {
      assert (xs + ys)[0] == xs[0] && (xs + ys)[1..] == xs[1..] + ys;
      MapAppend(f, xs[1..], ys);
    }
  }

  /** How `process_batch` judges one record: the map closure, fixed by the run's limit and UMI length. */
  type Classifier = Record -> Result<bool, Panic>

  /** The closure of a run with mismatch limit `m` and UMI length `umiLen`. */
  function RecordClassifier(m: nat, umiLen: nat): (c: Classifier)
    requires m <= U32_MAX
  {
    r => Classify(r, m, umiLen)
  }

  /** Collects the flags of a sequence of outcomes, failing with the first panic. */
  function Collect(os: seq<Result<bool, Panic>>): (res: Result<seq<bool>, Panic>)
    ensures res.Ok? ==> |res.value| == |os|
    decreases |os|
  {
    if |os| == 0 then Ok([])
    else match os[0]
      case Err(p) => Err(p)
      case Ok(b) =>
        match Collect(os[1..])
        case Err(p) => Err(p)
        case Ok(bs) => Ok([b] + bs)
  }

  /** `Collect` succeeds exactly when every outcome is a flag, and then returns those flags in order. */
  lemma {:induction false} CollectMeaning(os: seq<Result<bool, Panic>>)
    ensures Collect(os).Ok? <==> forall i :: 0 <= i < |os| ==> os[i].Ok?
    ensures Collect(os).Ok? ==> forall i :: 0 <= i < |os| ==> os[i] == Ok(Collect(os).value[i])
    decreases |os|
  {
    if |os| > 0 {
      CollectMeaning(os[1..]);
      assert forall i :: 1 <= i < |os| ==> os[1..][i - 1] == os[i];
    }
  }

  /** The panic `Collect` reports is the first one in the sequence. */
  lemma {:induction false} CollectReportsFirstPanic(os: seq<Result<bool, Panic>>)
    requires Collect(os).Err?
    ensures exists i :: 0 <= i < |os| && os[i] == Err(Collect(os).error) && forall j :: 0 <= j < i ==> os[j].Ok?
    decreases |os|
  {
    if os[0].Ok? {
      CollectReportsFirstPanic(os[1..]);
      var i :| 0 <= i < |os[1..]| && os[1..][i] == Err(Collect(os[1..]).error) && forall j :: 0 <= j < i ==> os[1..][j].Ok?;
      assert forall j :: 1 <= j < i + 1 ==> os[j] == os[1..][j - 1];
      assert os[i + 1] == Err(Collect(os).error);
    }
  }

  lemma {:induction false} CollectAppend(x: seq<Result<bool, Panic>>, y: seq<Result<bool, Panic>>)
    requires Collect(x).Ok?
    ensures Collect(x + y).Ok? == Collect(y).Ok?
    ensures Collect(y).Ok? ==> Collect(x + y).value == Collect(x).value + Collect(y).value
    ensures Collect(y).Err? ==> Collect(x + y) == Collect(y)
    decreases |x|
  {
    if |x| == 0 {
      assert x + y == y;
    } else {
      assert (x + y)[0] == x[0] && (x + y)[1..] == x[1..] + y;
      CollectAppend(x[1..], y);
    }
  }

  /** Once a panic is collected, later outcomes do not matter. */
  lemma {:induction false} CollectStopsAtPanic(x: seq<Result<bool, Panic>>, y: seq<Result<bool, Panic>>)
    requires Collect(x).Err?
    ensures Collect(x + y) == Collect(x)
    decreases |x|
  {
    assert (x + y)[0] == x[0];
    if x[0].Ok? {
      assert (x + y)[1..] == x[1..] + y;
      CollectStopsAtPanic(x[1..], y);
    }
  }

  /** `process_batch`'s map and `collect`: the flags of a batch, or the first panic among its records. */
  function ClassifyAll(batch: seq<Record>, c: Classifier): (res: Result<seq<bool>, Panic>)
    ensures res.Ok? ==> |res.value| == |batch|
  {
    Collect(Map(c, batch))
  }

  /** A batch classifies exactly when each record does, with each record's own flag; otherwise the first panic wins. */
  lemma ClassifyAllRecords(batch: seq<Record>, c: Classifier)
    ensures ClassifyAll(batch, c).Ok? <==> forall i :: 0 <= i < |batch| ==> c(batch[i]).Ok?
    ensures ClassifyAll(batch, c).Ok? ==> forall i :: 0 <= i < |batch| ==> c(batch[i]) == Ok(ClassifyAll(batch, c).value[i])
    ensures ClassifyAll(batch, c).Err? ==> exists i :: 0 <= i < |batch| && FirstPanicAt(batch, c, i, ClassifyAll(batch, c).error)
  {
    var os := Map(c, batch);
    forall i | 0 <= i < |batch|
      ensures os[i] == c(batch[i])
    {
      MapAt(c, batch, i);
    }
    CollectMeaning(os);
    if Collect(os).Err? {
      CollectReportsFirstPanic(os);
      var i :| 0 <= i < |os| && os[i] == Err(Collect(os).error) && forall j :: 0 <= j < i ==> os[j].Ok?;
      assert FirstPanicAt(batch, c, i, ClassifyAll(batch, c).error);
    }
  }

  /** Record `i` panics with `p`, and no record before it panics. */
  predicate FirstPanicAt(batch: seq<Record>, c: Classifier, i: nat, p: Panic)
    requires i < |batch|
  {
    && c(batch[i]) == Err(p)
    && forall j :: 0 <= j < i ==> c(batch[j]).Ok?
  }

  /** Classifying two batches one after the other is classifying their concatenation. */
  lemma ClassifyAllAppend(a: seq<Record>, b: seq<Record>, c: Classifier)
    requires ClassifyAll(a, c).Ok?
    ensures ClassifyAll(a + b, c).Ok? == ClassifyAll(b, c).Ok?
    ensures ClassifyAll(b, c).Ok? ==> ClassifyAll(a + b, c).value == ClassifyAll(a, c).value + ClassifyAll(b, c).value
    ensures ClassifyAll(b, c).Err? ==> ClassifyAll(a + b, c) == ClassifyAll(b, c)
  {
    MapAppend(c, a, b);
    CollectAppend(Map(c, a), Map(c, b));
  }

  /** A panic in a batch is the panic of any longer stream that starts with it. */
  lemma ClassifyAllStopsAtPanic(a: seq<Record>, b: seq<Record>, c: Classifier)
    requires ClassifyAll(a, c).Err?
    ensures ClassifyAll(a + b, c) == ClassifyAll(a, c)
  {
    MapAppend(c, a, b);
    CollectStopsAtPanic(Map(c, a), Map(c, b));
  }

  /** The records whose flag is `want`, in their original order. */
  function Select(batch: seq<Record>, flags: seq<bool>, want: bool): (s: seq<Record>)
    requires |flags| == |batch|
    ensures |s| <= |batch|
  {
    SelectFirst(batch, flags, |batch|, want)
  }

  /** The records among the first `n` whose flag is `want`, in their original order. */
  function SelectFirst(batch: seq<Record>, flags: seq<bool>, n: nat, want: bool): (s: seq<Record>)
    requires |flags| == |batch| && n <= |batch|
    ensures |s| <= n
    decreases n
  {
    if n == 0 then []
    else SelectFirst(batch, flags, n - 1, want) + (if flags[n - 1] == want then [batch[n - 1]] else [])
  }

  /** Selection looks only at the first `n` records and flags. */
  lemma {:induction false} SelectFirstSame(x: seq<Record>, fx: seq<bool>, y: seq<Record>, fy: seq<bool>, n: nat, want: bool)
    requires |fx| == |x| && |fy| == |y| && n <= |x| && n <= |y|
    requires forall j :: 0 <= j < n ==> x[j] == y[j] && fx[j] == fy[j]
    ensures SelectFirst(x, fx, n, want) == SelectFirst(y, fy, n, want)
    decreases n
  {
    if n > 0 {
      SelectFirstSame(x, fx, y, fy, n - 1, want);
    }
  }

  /** Selection distributes over concatenation: it keeps the relative order of records. */
  lemma SelectAppend(a: seq<Record>, fa: seq<bool>, b: seq<Record>, fb: seq<bool>, want: bool)
    requires |fa| == |a| && |fb| == |b|
    ensures Select(a + b, fa + fb, want) == Select(a, fa, want) + Select(b, fb, want)
  {
    SelectFirstAppend(a, fa, b, fb, |b|, want);
  }

  lemma {:induction false} SelectFirstAppend(a: seq<Record>, fa: seq<bool>, b: seq<Record>, fb: seq<bool>, k: nat, want: bool)
    requires |fa| == |a| && |fb| == |b| && k <= |b|
    ensures SelectFirst(a + b, fa + fb, |a| + k, want) == Select(a, fa, want) + SelectFirst(b, fb, k, want)
    decreases k
  {
    if k == 0 {
      SelectFirstSame(a + b, fa + fb, a, fa, |a|, want);
      assert Select(a, fa, want) + [] == Select(a, fa, want);
    } else {
      SelectFirstAppend(a, fa, b, fb, k - 1, want);
      assert (a + b)[|a| + k - 1] == b[k - 1] && (fa + fb)[|a| + k - 1] == fb[k - 1];
      var tail := if fb[k - 1] == want then [b[k - 1]] else [];
      ConcatAssoc(Select(a, fa, want), SelectFirst(b, fb, k - 1, want), tail);
    }
  }

  lemma ConcatAssoc<T>(x: seq<T>, y: seq<T>, z: seq<T>)
    ensures x + y + z == x + (y + z)
  {
  }

  /** The two selections split the batch: every record lands in exactly one of them, none is lost or duplicated. */
  lemma {:induction false} SelectPartitions(batch: seq<Record>, flags: seq<bool>)
    requires |flags| == |batch|
    ensures |Select(batch, flags, true)| + |Select(batch, flags, false)| == |batch|
    ensures multiset(Select(batch, flags, true)) + multiset(Select(batch, flags, false)) == multiset(batch)
    decreases |batch|
  {
    if |batch| > 0 {
      var n := |batch| - 1;
      var b', fl', r := batch[..n], flags[..n], batch[n];
      SelectPartitions(b', fl');
      SelectFirstSame(b', fl', batch, flags, n, true);
      SelectFirstSame(b', fl', batch, flags, n, false);
      var t, f := SelectFirst(batch, flags, n, true), SelectFirst(batch, flags, n, false);
      SplitLast(batch);
      if flags[n] {
        assert f + [] == f;
        PartitionSnoc(t, f, b', Select(batch, flags, true), batch, r);
      } else {
        assert t + [] == t;
        PartitionSnoc(f, t, b', Select(batch, flags, false), batch, r);
      }
    }
  }

  lemma SplitLast<T>(s: seq<T>)
    requires |s| > 0
    ensures s == s[..|s| - 1] + [s[|s| - 1]]
  {
  }

  /** A split of a sequence, with one more element added to one side, is a split of the extended sequence. */
  lemma PartitionSnoc(t: seq<Record>, f: seq<Record>, s: seq<Record>, t': seq<Record>, s': seq<Record>, r: Record)
    requires |t| + |f| == |s| && multiset(t) + multiset(f) == multiset(s)
    requires t' == t + [r] && s' == s + [r]
    ensures |t'| + |f| == |s'| && multiset(t') + multiset(f) == multiset(s')
    ensures |f| + |t'| == |s'| && multiset(f) + multiset(t') == multiset(s')
  {
  }

  /** A record lands in the selection for its own flag. */
  lemma SelectHasFlagged(batch: seq<Record>, flags: seq<bool>, i: nat)
    requires |flags| == |batch| && i < |batch|
    ensures batch[i] in Select(batch, flags, flags[i])
  {
    SelectFirstHas(batch, flags, |batch|, i);
  }

  lemma {:induction false} SelectFirstHas(batch: seq<Record>, flags: seq<bool>, n: nat, i: nat)
    requires |flags| == |batch| && i < n <= |batch|
    ensures batch[i] in SelectFirst(batch, flags, n, flags[i])
    decreases n
  {
    if i < n - 1 {
      SelectFirstHas(batch, flags, n - 1, i);
    }
  }

  /** `process_batch`: classify everything, then write each record to the writer its flag chooses. */
  method ProcessBatch(batch: seq<Record>, kept: Writer, removed: Writer, c: Classifier)
    returns (res: Result<(nat, nat), Panic>, kept': Writer, removed': Writer)
    ensures |batch| == 0 ==> res == Ok((0, 0)) && kept' == kept && removed' == removed
    ensures res.Ok? <==> ClassifyAll(batch, c).Ok?
    ensures res.Err? ==> res.error == ClassifyAll(batch, c).error && kept' == kept && removed' == removed
    ensures res.Ok? ==> res.value.0 + res.value.1 == |batch|
    ensures res.Ok? ==>
      var flags := ClassifyAll(batch, c).value;
      && res.value == (|Select(batch, flags, true)|, |Select(batch, flags, false)|)
      && removed' == WriteAll(Select(batch, flags, true), removed)
      && kept' == WriteAll(Select(batch, flags, false), kept)
  {
    if |batch| == 0 {
      return Ok((0, 0)), kept, removed;
    }
    var classified := ClassifyAll(batch, c);
    if classified.Err? {
      return Err(classified.error), kept, removed;
    }
    var nRemoved, nKept;
    nRemoved, nKept, kept', removed' := RouteBatch(batch, classified.value, kept, removed);
    res := Ok((nRemoved, nKept));
  }

  /** The serial write phase of `process_batch`: flagged records to `removed`, the others to `kept`. */
  method RouteBatch(batch: seq<Record>, flags: seq<bool>, kept: Writer, removed: Writer)
    returns (nRemoved: nat, nKept: nat, kept': Writer, removed': Writer)
    requires |flags| == |batch|
    ensures nRemoved + nKept == |batch|
    ensures nRemoved == |Select(batch, flags, true)| && nKept == |Select(batch, flags, false)|
    ensures removed' == WriteAll(Select(batch, flags, true), removed)
    ensures kept' == WriteAll(Select(batch, flags, false), kept)
  {
    nRemoved, nKept := 0, 0;
    kept', removed' := kept, removed;
    ghost var t, f := [], [];
    var i := 0;
    while i < |batch|
      invariant 0 <= i <= |batch|
      invariant t == SelectFirst(batch, flags, i, true) && f == SelectFirst(batch, flags, i, false)
      invariant removed' == WriteAll(t, removed) && nRemoved == |t|
      invariant kept' == WriteAll(f, kept) && nKept == |f|
    {
      SelectStep(batch, flags, i);
      if flags[i] {
        WriteAllSnoc(t, batch[i], removed);
        nRemoved, removed', t := nRemoved + 1, WriteTo(batch[i], removed'), t + [batch[i]];
      } else {
        WriteAllSnoc(f, batch[i], kept);
        nKept, kept', f := nKept + 1, WriteTo(batch[i], kept'), f + [batch[i]];
      }
      i := i + 1;
    }
    SelectPartitions(batch, flags);
  }

  /** One more record extends the selection for its own flag and leaves the other one as it was. */
  lemma SelectStep(batch: seq<Record>, flags: seq<bool>, i: nat)
    requires |flags| == |batch| && i < |batch|
    ensures SelectFirst(batch, flags, i + 1, flags[i]) == SelectFirst(batch, flags, i, flags[i]) + [batch[i]]
    ensures SelectFirst(batch, flags, i + 1, !flags[i]) == SelectFirst(batch, flags, i, !flags[i])
  {
    assert SelectFirst(batch, flags, i, !flags[i]) + [] == SelectFirst(batch, flags, i, !flags[i]);
  }

  /** Writing one more record after a sequence is writing the longer sequence. */
  lemma WriteAllSnoc(rs: seq<Record>, r: Record, w: Writer)
    ensures WriteAll(rs + [r], w) == WriteTo(r, WriteAll(rs, w))
  {
    assert (rs + [r])[..|rs|] == rs;
  }

  lemma SliceSnoc<T>(s: seq<T>, lo: nat, hi: nat)
    requires lo <= hi < |s|
    ensures s[lo..hi + 1] == s[lo..hi] + [s[hi]]
  {
  }

  /**
   * A record stream as the readers deliver it: the records that parse, in
   * order, and whether reading then fails (`record?` returning an error)
   * instead of reaching the end. Nothing after a failed read is ever seen.
   */
  datatype Stream = Stream(records: seq<Record>, readError: bool)

  /** Why a run stopped early. */
  datatype Failure = Panicked(panic: Panic) | InputError

  /** `(total, removed, kept)`. */
  datatype Stats = Stats(total: nat, removed: nat, kept: nat)

  /** End of the batch that starts at `start` in a stream of `n` records. */
  function BatchEnd(start: nat, n: nat, batchSize: nat): (e: nat)
    requires start <= n
    ensures start <= e <= n && e - start <= batchSize
    ensures e - start < batchSize ==> e == n
  {
    if start + batchSize <= n then start + batchSize else n
  }

  /** What a run has produced so far: the two writers and how many records each received. */
  datatype Routing = Routing(kept: Writer, removed: Writer, nKept: nat, nRemoved: nat)

  /** Sends one record whose flag is known to its writer. */
  function RouteOne(r: Record, flag: bool, s: Routing): (t: Routing)
    ensures flag ==> t == Routing(s.kept, WriteTo(r, s.removed), s.nKept, s.nRemoved + 1)
    ensures !flag ==> t == Routing(WriteTo(r, s.kept), s.removed, s.nKept + 1, s.nRemoved)
  {
    if flag then s.(removed := WriteTo(r, s.removed), nRemoved := s.nRemoved + 1)
    else s.(kept := WriteTo(r, s.kept), nKept := s.nKept + 1)
  }

  /**
   * The first `n` records of a run read one at a time: classify a record,
   * write it, go on with the next; the first panic ends the run. This is the
   * reference the batched loop is proved against.
   */
  function Route(rs: seq<Record>, n: nat, c: Classifier, s: Routing): (res: Result<Routing, Panic>)
    requires n <= |rs|
    ensures res.Ok? ==> res.value.nKept + res.value.nRemoved == s.nKept + s.nRemoved + n
    decreases n
  {
    if n == 0 then Ok(s)
    else
      match Route(rs, n - 1, c, s)
      case Err(p) => Err(p)
      case Ok(t) =>
        match c(rs[n - 1])
        case Err(p) => Err(p)
        case Ok(flag) => Ok(RouteOne(rs[n - 1], flag, t))
  }

  /** Routing `n` records looks at those records only. */
  lemma {:induction false} RouteSamePrefix(a: seq<Record>, b: seq<Record>, n: nat, c: Classifier, s: Routing)
    requires n <= |a| && n <= |b|
    requires forall j :: 0 <= j < n ==> a[j] == b[j]
    ensures Route(a, n, c, s) == Route(b, n, c, s)
    decreases n
  {
    if n > 0 {
      RouteSamePrefix(a, b, n - 1, c, s);
    }
  }

  /** Routing `k + n` records is routing `k`, then the next `n` from where the first `k` left off. */
  lemma {:induction false} RouteSplit(rs: seq<Record>, k: nat, n: nat, c: Classifier, s: Routing)
    requires k + n <= |rs|
    ensures Route(rs, k, c, s).Err? ==> Route(rs, k + n, c, s) == Route(rs, k, c, s)
    ensures Route(rs, k, c, s).Ok? ==> Route(rs, k + n, c, s) == Route(rs[k..], n, c, Route(rs, k, c, s).value)
    decreases n
  {
    if n > 0 {
      RouteSplit(rs, k, n - 1, c, s);
      assert rs[k..][n - 1] == rs[k + n - 1];
    }
  }

  /** A batch of one record classifies as its record does. */
  lemma ClassifyAllSingle(r: Record, c: Classifier)
    ensures c(r).Err? ==> ClassifyAll([r], c) == Err(c(r).error)
    ensures c(r).Ok? ==> ClassifyAll([r], c) == Ok([c(r).value])
  {
    var os := Map(c, [r]);
    assert os == [c(r)] + Map(c, []);
    assert os[1..] == [];
    assert Collect(os[1..]) == Ok([]);
    if c(r).Ok? {
      assert [c(r).value] + [] == [c(r).value];
    }
  }

  /**
   * The batch reading of a run agrees with the record-at-a-time one: classify
   * the whole sequence, fail with its first panic, otherwise append the
   * flagged records to the removed writer and the others to the kept writer,
   * each in input order.
   */
  lemma RouteMeaning(rs: seq<Record>, c: Classifier, s: Routing)
    ensures Route(rs, |rs|, c, s).Ok? == ClassifyAll(rs, c).Ok?
    ensures ClassifyAll(rs, c).Err? ==> Route(rs, |rs|, c, s) == Err(ClassifyAll(rs, c).error)
    ensures ClassifyAll(rs, c).Ok? ==> Route(rs, |rs|, c, s) == Ok(Batched(rs, ClassifyAll(rs, c).value, s))
  {
    RoutePrefixMeaning(rs, |rs|, c, s);
    assert rs[..|rs|] == rs;
  }

  lemma {:induction false} RoutePrefixMeaning(rs: seq<Record>, n: nat, c: Classifier, s: Routing)
    requires n <= |rs|
    ensures Route(rs, n, c, s).Ok? == ClassifyAll(rs[..n], c).Ok?
    ensures ClassifyAll(rs[..n], c).Err? ==> Route(rs, n, c, s) == Err(ClassifyAll(rs[..n], c).error)
    ensures ClassifyAll(rs[..n], c).Ok? ==> Route(rs, n, c, s) == Ok(Batched(rs[..n], ClassifyAll(rs[..n], c).value, s))
    decreases n
  {
    if n == 0 {
      assert Map(c, rs[..0]) == [];
    } else {
      var k := n - 1;
      RoutePrefixMeaning(rs, k, c, s);
      TakeSnoc(rs, k);
      if ClassifyAll(rs[..k], c).Err? {
        ClassifyAllStopsAtPanic(rs[..k], [rs[k]], c);
      } else {
        ClassifySnoc(rs[..k], rs[k], c, s);
      }
    }
  }

  lemma TakeSnoc<T>(s: seq<T>, i: nat)
    requires i < |s|
    ensures s[..i + 1] == s[..i] + [s[i]]
  {
  }

  /** One more record after a classified batch: its panic ends the batch, its flag routes it after the others. */
  lemma ClassifySnoc(pre: seq<Record>, r: Record, c: Classifier, s: Routing)
    requires ClassifyAll(pre, c).Ok?
    ensures c(r).Err? ==> ClassifyAll(pre + [r], c) == Err(c(r).error)
    ensures c(r).Ok? ==>
      && ClassifyAll(pre + [r], c).Ok?
      && Batched(pre + [r], ClassifyAll(pre + [r], c).value, s)
         == RouteOne(r, c(r).value, Batched(pre, ClassifyAll(pre, c).value, s))
  {
    ClassifyAllSingle(r, c);
    ClassifyAllAppend(pre, [r], c);
    if c(r).Ok? {
      var all, flags, n := pre + [r], ClassifyAll(pre + [r], c).value, |pre|;
      assert all[..n] == pre && all[n] == r;
      assert flags[..n] == ClassifyAll(pre, c).value && flags[n] == c(r).value;
      BatchedStep(all, flags, s);
    }
  }

  /** Routing a classified batch as `process_batch` does: each selection written in order, counted. */
  function Batched(rs: seq<Record>, flags: seq<bool>, s: Routing): (t: Routing)
    requires |flags| == |rs|
  {
    Routing(WriteAll(Select(rs, flags, false), s.kept), WriteAll(Select(rs, flags, true), s.removed),
            s.nKept + |Select(rs, flags, false)|, s.nRemoved + |Select(rs, flags, true)|)
  }

  lemma BatchedIs(rs: seq<Record>, flags: seq<bool>, s: Routing, kept: Writer, removed: Writer, nRemoved: nat, nKept: nat)
    requires |flags| == |rs|
    requires kept == WriteAll(Select(rs, flags, false), s.kept) && removed == WriteAll(Select(rs, flags, true), s.removed)
    requires nRemoved == |Select(rs, flags, true)| && nKept == |Select(rs, flags, false)|
    ensures Batched(rs, flags, s) == Routing(kept, removed, s.nKept + nKept, s.nRemoved + nRemoved)
  {
  }

  /** Writing a batch is writing all but its last record, then the last one. */
  lemma BatchedStep(rs: seq<Record>, flags: seq<bool>, s: Routing)
    requires |flags| == |rs| > 0
    ensures var n := |rs| - 1;
      Batched(rs, flags, s) == RouteOne(rs[n], flags[n], Batched(rs[..n], flags[..n], s))
  {
    var n := |rs| - 1;
    SelectFirstSame(rs[..n], flags[..n], rs, flags, n, true);
    SelectFirstSame(rs[..n], flags[..n], rs, flags, n, false);
    var t, f := SelectFirst(rs, flags, n, true), SelectFirst(rs, flags, n, false);
    if flags[n] {
      assert f + [] == f;
      WriteAllSnoc(t, rs[n], s.removed);
    } else {
      assert t + [] == t;
      WriteAllSnoc(f, rs[n], s.kept);
    }
  }

  /** Where the batching loop stopped: after the last record, or at a panicking batch. */
  datatype Stop = EndOfRecords | BatchPanicked(panic: Panic)

  /** Flushes a batch: the writers end up as if its records were routed one by one. */
  method FlushBatch(batch: seq<Record>, c: Classifier, s: Routing) returns (res: Result<Routing, Panic>)
    ensures res == Route(batch, |batch|, c, s)
    ensures res.Err? ==> ClassifyAll(batch, c) == Err(res.error)
  {
    var out, kept, removed := ProcessBatch(batch, s.kept, s.removed, c);
    RouteMeaning(batch, c, s);
    if out.Err? {
      return Err(out.error);
    }
    res := Ok(Routing(kept, removed, s.nKept + out.value.1, s.nRemoved + out.value.0));
    BatchedIs(batch, ClassifyAll(batch, c).value, s, kept, removed, out.value.0, out.value.1);
  }

  /** A routed prefix extended by a batch routed from where it left off. */
  lemma RouteExtend(recs: seq<Record>, k: nat, batch: seq<Record>, c: Classifier, start: Routing, s: Routing,
                    res: Result<Routing, Panic>)
    requires k + |batch| <= |recs| && recs[k..k + |batch|] == batch
    requires Route(recs, k, c, start) == Ok(s) && res == Route(batch, |batch|, c, s)
    ensures Route(recs, k + |batch|, c, start) == res
  {
    RouteSplit(recs, k, |batch|, c, start);
    RouteSamePrefix(recs[k..], batch, |batch|, c, s);
  }

  /** Flushes the batch `recs[flushed..end]`, extending the routed prefix to `end` records. */
  method FlushFull(recs: seq<Record>, c: Classifier, start: Routing, ghost flushed: nat, ghost end: nat, pending: seq<Record>, state: Routing)
    returns (out: Result<Routing, Panic>)
    requires flushed <= end <= |recs| && pending == recs[flushed..end]
    requires Route(recs, flushed, c, start) == Ok(state)
    ensures out == Route(recs, end, c, start)
    ensures out.Err? ==> ClassifyAll(pending, c) == Err(out.error)
    ensures out.Err? ==> Route(recs, |recs|, c, start) == out
  {
    out := FlushBatch(pending, c, state);
    RouteExtend(recs, flushed, pending, c, start, state, out);
    if out.Err? {
      PanicPersists(recs, end, c, start);
    }
  }

  /**
   * The loop of `process_fastq` and `process_bam`: reads records into a batch
   * and flushes every full batch. `flushed` counts the records whose batch was
   * classified and written; `pending` is the partial batch left at the end.
   */
  method FillBatches(recs: seq<Record>, c: Classifier, start: Routing, batchSize: nat)
    returns (stop: Stop, state: Routing, pending: seq<Record>, ghost flushed: nat, ghost batches: nat)
    requires batchSize > 0
    ensures flushed <= |recs| && flushed == batches * batchSize
    ensures Route(recs, flushed, c, start) == Ok(state)
    ensures stop == EndOfRecords ==> pending == recs[flushed..|recs|] && |pending| < batchSize
    ensures stop.BatchPanicked? ==>
      && flushed + batchSize <= |recs|
      && Route(recs, flushed + batchSize, c, start) == Err(stop.panic)
      && ClassifyAll(recs[flushed..flushed + batchSize], c) == Err(stop.panic)
    ensures stop == EndOfRecords ==>
      && |pending| < batchSize && pending == recs[|recs| - |pending|..]
      && Route(recs, |recs| - |pending|, c, start) == Ok(state)
    ensures stop.BatchPanicked? ==> Route(recs, |recs|, c, start) == Err(stop.panic)
  {
    state := start;
    pending := [];
    var i := 0;
    flushed, batches := 0, 0;
    while i < |recs|
      invariant flushed <= i <= |recs| && pending == recs[flushed..i]
      invariant flushed == batches * batchSize && |pending| < batchSize
      invariant Route(recs, flushed, c, start) == Ok(state)
    {
      var panicked;
      panicked, pending, state, flushed, batches := TakeRecord(recs, c, start, batchSize, i, pending, state, flushed, batches);
      if panicked.Some? {
        return BatchPanicked(panicked.value), state, pending, flushed, batches;
      }
      i := i + 1;
    }
    assert |recs| - |pending| == flushed && pending == recs[flushed..];
    stop := EndOfRecords;
  }

  /** One turn of the batching loop: add record `i` to the batch, and flush the batch once it is full. */
  method TakeRecord(recs: seq<Record>, c: Classifier, start: Routing, batchSize: nat, i: nat,
                    pending: seq<Record>, state: Routing, ghost flushed: nat, ghost batches: nat)
    returns (panicked: Option<Panic>, pending': seq<Record>, state': Routing, ghost flushed': nat, ghost batches': nat)
    requires batchSize > 0 && i < |recs|
    requires flushed <= i && pending == recs[flushed..i]
    requires flushed == batches * batchSize && |pending| < batchSize
    requires Route(recs, flushed, c, start) == Ok(state)
    ensures flushed' <= i + 1 && pending' == recs[flushed'..i + 1]
    ensures flushed' == batches' * batchSize
    ensures Route(recs, flushed', c, start) == Ok(state')
    ensures panicked.None? ==> |pending'| < batchSize
    ensures panicked.Some? ==>
      && flushed' + batchSize == i + 1
      && Route(recs, flushed' + batchSize, c, start) == Err(panicked.value)
      && ClassifyAll(recs[flushed'..flushed' + batchSize], c) == Err(panicked.value)
    ensures panicked.Some? ==> Route(recs, |recs|, c, start) == Err(panicked.value)
  {
    SliceSnoc(recs, flushed, i);
    pending', state', flushed', batches' := pending + [recs[i]], state, flushed, batches;
    panicked := None;
    if |pending'| >= batchSize {
      var out := FlushFull(recs, c, start, flushed, i + 1, pending', state);
      if out.Err? {
        panicked := Some(out.error);
      } else {
        MulSucc(batches, batchSize);
        pending', state', flushed', batches' := [], out.value, i + 1, batches + 1;
      }
    }
  }

  lemma MulSucc(a: nat, b: nat)
    ensures (a + 1) * b == a * b + b
  {
  }

  /** A panic in a routed prefix is the outcome of routing the whole sequence. */
  lemma PanicPersists(recs: seq<Record>, k: nat, c: Classifier, start: Routing)
    requires k <= |recs| && Route(recs, k, c, start).Err?
    ensures Route(recs, |recs|, c, start) == Route(recs, k, c, start)
  {
    RouteSplit(recs, k, |recs| - k, c, start);
  }

  /**
   * The batching shared by `process_fastq` and `process_bam`: the loop, then the
   * flush of the last, partial batch, unless reading failed first. On success
   * the writers hold exactly what routing the records one by one produces; on
   * a failure they hold what the batches flushed before it produced.
   */
  method ProcessStream(input: Stream, kept0: Writer, removed0: Writer, c: Classifier, batchSize: nat)
    returns (res: Result<Stats, Failure>, kept: Writer, removed: Writer, ghost flushed: nat, ghost batches: nat)
    requires batchSize > 0
    ensures var recs, start := input.records, Routing(kept0, removed0, 0, 0);
      res.Ok? <==> !input.readError && Route(recs, |recs|, c, start).Ok?
    ensures var recs, start := input.records, Routing(kept0, removed0, 0, 0);
      res.Ok? ==>
        && res.value.total == |recs| == res.value.removed + res.value.kept
        && Route(recs, |recs|, c, start) == Ok(Routing(kept, removed, res.value.kept, res.value.removed))
    ensures var recs, start := input.records, Routing(kept0, removed0, 0, 0);
      res.Err? && res.error.Panicked? ==> Route(recs, |recs|, c, start) == Err(res.error.panic)
    ensures res == Err(InputError) ==> input.readError
    ensures var recs, start := input.records, Routing(kept0, removed0, 0, 0);
      && flushed <= |recs|
      && Route(recs, flushed, c, start).Ok?
      && Route(recs, flushed, c, start).value.kept == kept
      && Route(recs, flushed, c, start).value.removed == removed
    ensures res.Ok? ==> flushed == |input.records|
    ensures res.Err? ==> flushed == batches * batchSize
    ensures res == Err(InputError) ==> input.readError && |input.records| < flushed + batchSize
    ensures var recs, start := input.records, Routing(kept0, removed0, 0, 0);
      res.Err? && res.error.Panicked? ==>
        ClassifyAll(recs[flushed..BatchEnd(flushed, |recs|, batchSize)], c) == Err(res.error.panic)
  {
    var recs, start := input.records, Routing(kept0, removed0, 0, 0);
    var stop, state, pending;
    stop, state, pending, flushed, batches := FillBatches(recs, c, start, batchSize);
    kept, removed := state.kept, state.removed;
    match stop
    case BatchPanicked(p) =>
      PanicPersists(recs, flushed + batchSize, c, start);
      assert BatchEnd(flushed, |recs|, batchSize) == flushed + batchSize;
      res := Err(Panicked(p));
    case EndOfRecords =>
      if input.readError {
        return Err(InputError), kept, removed, flushed, batches;
      }
      var out := FlushFull(recs, c, start, flushed, |recs|, pending, state);
      if out.Err? {
        assert BatchEnd(flushed, |recs|, batchSize) == |recs|;
        res := Err(Panicked(out.error));
      } else {
        kept, removed := out.value.kept, out.value.removed;
        flushed := |recs|;
        res := Ok(Stats(|recs|, out.value.nRemoved, out.value.nKept));
      }
  }

  /** What a FASTQ input looks like to `process_fastq` before any record is read. */
  datatype FastqInput =
    | ZeroBytes               // the file has length 0
    | ParserEmpty             // the parser reports `EmptyFile`
    | ParserRejects           // the parser fails in any other way
    | FastqStream(stream: Stream)

  /** A FASTQ output as created: empty when requested, absent otherwise. */
  function FastqOutput(requested: bool): (w: Writer)
    ensures requested <==> w.FastqWriter?
    ensures requested ==> w.out == []
  {
    if requested then FastqWriter([]) else Sink
  }

  /** `process_fastq`; `keptRequested`/`removedRequested` say whether the output paths were given. */
  method ProcessFastq(input: FastqInput, keptRequested: bool, removedRequested: bool, m: nat, umiLen: nat)
    returns (res: Result<Stats, Failure>, kept: Writer, removed: Writer)
    requires m <= U32_MAX
    ensures input == ZeroBytes ==> res == Ok(Stats(0, 0, 0)) && kept == FastqOutput(keptRequested) && removed == Sink
    ensures input == ParserEmpty ==> res == Ok(Stats(0, 0, 0)) && kept == Sink && removed == Sink
    ensures input == ParserRejects ==> res == Err(InputError) && kept == Sink && removed == Sink
    ensures input.FastqStream? ==>
      var recs := input.stream.records;
      var route := Route(recs, |recs|, RecordClassifier(m, umiLen), Routing(FastqOutput(keptRequested), FastqOutput(removedRequested), 0, 0));
      && (res.Ok? <==> !input.stream.readError && route.Ok?)
      && (res.Ok? ==> res.value.total == |recs| && route == Ok(Routing(kept, removed, res.value.kept, res.value.removed)))
  {
    match input
    case ZeroBytes =>
      return Ok(Stats(0, 0, 0)), FastqOutput(keptRequested), Sink;
    case ParserEmpty =>
      return Ok(Stats(0, 0, 0)), Sink, Sink;
    case ParserRejects =>
      return Err(InputError), Sink, Sink;
    case FastqStream(stream) =>
      ghost var flushed, batches;
      res, kept, removed, flushed, batches :=
        ProcessStream(stream, FastqOutput(keptRequested), FastqOutput(removedRequested), RecordClassifier(m, umiLen), BATCH_SIZE);
  }

  /** What a BAM or SAM input looks like to `process_bam`. */
  datatype BamInput = Unopenable | BamStream(stream: Stream)

  function BamOutput(requested: bool): (w: Writer)
    ensures requested <==> w.BamWriter?
    ensures requested ==> w.written == []
  {
    if requested then BamWriter([]) else Sink
  }

  /** `process_bam`. */
  method ProcessBam(input: BamInput, keptRequested: bool, removedRequested: bool, m: nat, umiLen: nat)
    returns (res: Result<Stats, Failure>, kept: Writer, removed: Writer)
    requires m <= U32_MAX
    ensures input == Unopenable ==> res == Err(InputError) && kept == Sink && removed == Sink
    ensures input.BamStream? ==>
      var recs := input.stream.records;
      var route := Route(recs, |recs|, RecordClassifier(m, umiLen), Routing(BamOutput(keptRequested), BamOutput(removedRequested), 0, 0));
      && (res.Ok? <==> !input.stream.readError && route.Ok?)
      && (res.Ok? ==> res.value.total == |recs| && route == Ok(Routing(kept, removed, res.value.kept, res.value.removed)))
  {
    match input
    case Unopenable =>
      return Err(InputError), Sink, Sink;
    case BamStream(stream) =>
      ghost var flushed, batches;
      res, kept, removed, flushed, batches :=
        ProcessStream(stream, BamOutput(keptRequested), BamOutput(removedRequested), RecordClassifier(m, umiLen), BATCH_SIZE);
  }

  // ---------------------------------------------------------------------------
  // The source's unit test of `process_batch`
  // ---------------------------------------------------------------------------

  /** The two records of the source's test: `r1:ACGT` over a read holding `ACGT`, `r2:TTTT` over one without `TTTT`. */
  const R1: Record := FastqRecord(R1Id + [0x3A] + R1Umi, HitRead, None)
  const R2: Record := FastqRecord(R2Id + [0x3A] + R2Umi, MissRead, None)

  /** The routing of a two-record batch. */
  lemma SelectPair(a: Record, b: Record, fa: bool, fb: bool, want: bool)
    ensures Select([a, b], [fa, fb], want) == (if fa == want then [a] else []) + (if fb == want then [b] else [])
  {
    var batch, flags := [a, b], [fa, fb];
    var x, y := if fa == want then [a] else [], if fb == want then [b] else [];
    assert SelectFirst(batch, flags, 1, want) == [] + x;
    assert [] + x == x;
  }

  /** With no mismatch allowed, the test's first record is flagged and its second is not. */
  lemma RoutingFlags()
    ensures Classify(R1, 0, 4) == Ok(true)
    ensures Classify(R2, 0, 4) == Ok(false)
  {
    RoutingHeaders();
    RoutingReads();
  }

  /** The test of `process_batch`: `r1` goes to the removed writer, `r2` to the kept one, one record each. */
  lemma RoutingExample()
    ensures ClassifyAll([R1, R2], RecordClassifier(0, 4)) == Ok([true, false])
    ensures Select([R1, R2], [true, false], true) == [R1]
    ensures Select([R1, R2], [true, false], false) == [R2]
  {
    var c := RecordClassifier(0, 4);
    RoutingFlags();
    ClassifyAllRecords([R1, R2], c);
    assert c([R1, R2][0]) == Ok(true) && c([R1, R2][1]) == Ok(false);
    var flags := ClassifyAll([R1, R2], c).value;
    assert flags[0] == true && flags[1] == false;
    assert flags == [true, false];
    SelectPair(R1, R2, true, false, true);
    SelectPair(R1, R2, true, false, false);
  }

  /** A FASTQ writer that receives one record holds exactly that record's entry after what it held before. */
  lemma WriteOneFastq(r: Record, out: seq<Byte>)
    requires r.FastqRecord?
    ensures WriteAll([r], FastqWriter(out)) == FastqWriter(out + FastqEntry(r.head, r.bases, r.qual))
  {
    WriteAllFastq([r], out);
    assert [r][1..] == [];
    assert Entries([r]) == FastqEntry(r.head, r.bases, r.qual) + [];
  }

  /** The test's output check: the removed writer, empty at first, ends up holding r1's entry and nothing else. */
  lemma RoutingOutput()
    ensures WriteAll(Select([R1, R2], [true, false], true), FastqWriter([])) == FastqWriter([] + FastqEntry(R1.head, R1.bases, R1.qual))
  {
    RoutingExample();
    WriteOneFastq(R1, []);
  }

  /** That entry opens with `@r1:ACGT`, the text the test looks for. */
  lemma RoutingOutputHeader()
    ensures FastqEntry(R1.head, R1.bases, R1.qual)[..1 + |R1.head|] == [AT] + R1Id + [0x3A] + R1Umi
  {
    EntryOpensWithHeader(R1.head, R1.bases, R1.qual);
  }
}
