/** The Converter stage (`convert_on_upload`): for each uploaded media
    object it picks a destination key in the output bucket that no object
    holds yet, then writes the MP3 transcoding of the upload there. */
module Converter {
  import opened Wrappers
  import opened PyStr
  import opened PyPath
  import opened Events
  import opened S3

  datatype Config = Config(outputBucket: string, ffmpegPath: string)

  /** The configuration read at import: `OUTPUT_BUCKET` is required (the
      module fails to load without it), `FFMPEG_PATH` defaults to
      `/opt/bin/ffmpeg`. */
  function ConfigFromEnv(env: map<string, string>): (c: Option<Config>)
    ensures c.Some? <==> "OUTPUT_BUCKET" in env
    ensures c.Some? ==> c.value.outputBucket == env["OUTPUT_BUCKET"]
    ensures c.Some? && "FFMPEG_PATH" in env ==> c.value.ffmpegPath == env["FFMPEG_PATH"]
    ensures c.Some? && "FFMPEG_PATH" !in env ==> c.value.ffmpegPath == "/opt/bin/ffmpeg"
  {
    if "OUTPUT_BUCKET" !in env then None
    else
      var ffmpeg := if "FFMPEG_PATH" in env then env["FFMPEG_PATH"] else "/opt/bin/ffmpeg";
      Some(Config(env["OUTPUT_BUCKET"], ffmpeg))
  }

  /** The key the conversion of `key` asks for: the base name of the
      upload with the extension `.mp3`. */
  function DesiredKey(key: string): string {
    BaseName(key) + ".mp3"
  }

  /** The desired key has no directory part and ends in `.mp3`. */
  lemma {:induction false} DesiredKeyShape(key: string)
    ensures '/' !in DesiredKey(key) && EndsWith(DesiredKey(key), ".mp3")
  {
  }

  /** Unless the base name is made only of dots, the desired key splits
      back into that base name and `.mp3`. */
  lemma {:induction false} DesiredKeySplits(key: string)
    requires HasNonDot(BaseName(key))
    ensures SplitExt(DesiredKey(key)) == (BaseName(key), ".mp3")
  {
    SplitExtAppend(BaseName(key), ".mp3");
  }

  /** The `n`-th key the allocator probes for `desired`: `desired` itself,
      then `<root>-v<n><ext>` with `(root, ext) = splitext(desired)`. */
  function Candidate(desired: string, n: nat): string
    requires n >= 1
  {
    if n == 1 then desired
    else SplitExt(desired).0 + "-v" + Decimal(n) + SplitExt(desired).1
  }

  /** Versioned candidates keep the root and the extension of the desired
      key around the version tag. */
  lemma {:induction false} CandidateShape(desired: string, n: nat)
    requires n >= 2
    ensures StartsWith(Candidate(desired, n), SplitExt(desired).0 + "-v")
    ensures EndsWith(Candidate(desired, n), SplitExt(desired).1)
    ensures |Candidate(desired, n)| > |desired|
  {
  }

  /** A versioned candidate is the root, `-v`, the version number and the
      extension. */
  lemma {:induction false} CandidateParts(desired: string, n: nat)
    requires n >= 2
    ensures var c, root := Candidate(desired, n), SplitExt(desired).0;
            |c| == |desired| + 2 + |Decimal(n)| && c[|root| + 2..|root| + 2 + |Decimal(n)|] == Decimal(n)
  {
    var root, ext := SplitExt(desired).0, SplitExt(desired).1;
    var c := Candidate(desired, n);
    assert c == (root + "-v") + Decimal(n) + ext;
  }

  /** No key is probed twice: the candidates are pairwise distinct. */
  lemma {:induction false} CandidatesDistinct(desired: string, n: nat, m: nat)
    requires 1 <= n < m
    ensures Candidate(desired, n) != Candidate(desired, m)
  {
    CandidateParts(desired, m);
    if n > 1 {
      CandidateParts(desired, n);
      if Candidate(desired, n) == Candidate(desired, m) {
        DecimalInjective(n, m);
      }
    }
  }

  /** The probes of candidates `1 .. n-1` all found an object. */
  ghost predicate ProbedFound(objects: map<ObjectId, Content>, faults: ProbeFaults,
                              bucket: string, desired: string, n: nat)
  {
    forall m :: 1 <= m < n ==> HeadOf(objects, faults, ObjectId(bucket, Candidate(desired, m))) == Found
  }

  /** `n` is the first candidate whose probe did not find an object. */
  ghost predicate FirstUnfound(objects: map<ObjectId, Content>, faults: ProbeFaults,
                               bucket: string, desired: string, n: nat)
  {
    n >= 1 && ProbedFound(objects, faults, bucket, desired, n) &&
    HeadOf(objects, faults, ObjectId(bucket, Candidate(desired, n))) != Found
  }

  /** There is only one first candidate left unfound. */
  lemma {:induction false} FirstUnfoundUnique(objects: map<ObjectId, Content>, faults: ProbeFaults,
                           bucket: string, desired: string, n: nat, m: nat)
    requires FirstUnfound(objects, faults, bucket, desired, n)
    requires FirstUnfound(objects, faults, bucket, desired, m)
    ensures n == m
  {
  }

  /** The objects probed before candidate `n`. */
  ghost function ProbedIds(bucket: string, desired: string, n: nat): set<ObjectId>
    requires n >= 1
  {
    set m: nat | 1 <= m < n :: ObjectId(bucket, Candidate(desired, m))
  }

  /** The candidates before `n` are `n - 1` distinct objects. */
  lemma {:induction false} ProbedCount(bucket: string, desired: string, n: nat)
    requires n >= 1
    ensures |ProbedIds(bucket, desired, n)| == n - 1
  {
    if n > 1 {
      ProbedCount(bucket, desired, n - 1);
      var last := ObjectId(bucket, Candidate(desired, n - 1));
      forall m | 1 <= m < n - 1
        ensures ObjectId(bucket, Candidate(desired, m)) != last
      {
        CandidatesDistinct(desired, m, n - 1);
      }
      assert ProbedIds(bucket, desired, n) == ProbedIds(bucket, desired, n - 1) + {last};
    }
  }

  /** Every candidate found is an object of the store, so a store of `k`
      objects lets at most `k` probes succeed. */
  lemma {:induction false} FoundBound(objects: map<ObjectId, Content>, faults: ProbeFaults,
                                      bucket: string, desired: string, n: nat)
    requires n >= 1 && ProbedFound(objects, faults, bucket, desired, n)
    ensures n - 1 <= |objects|
  {
    var probed := ProbedIds(bucket, desired, n);
    ProbedCount(bucket, desired, n);
    assert probed <= objects.Keys;
    SubsetCardinality(probed, objects.Keys);
  }

  /** A subset is no larger than its superset. */
  lemma {:induction false} SubsetCardinality<T>(a: set<T>, b: set<T>)
    requires a <= b
    ensures |a| <= |b|
    decreases |a|
  {
    if a != {} {
      var x :| x in a;
      SubsetCardinality(a - {x}, b - {x});
    }
  }

  /** Probing from candidate `n` on, with every earlier candidate found:
      the first candidate whose probe does not find an object. */
  function FirstUnfoundFrom(objects: map<ObjectId, Content>, faults: ProbeFaults,
                            bucket: string, desired: string, n: nat): (m: nat)
    requires n >= 1 && ProbedFound(objects, faults, bucket, desired, n)
    ensures n <= m <= |objects| + 1 && FirstUnfound(objects, faults, bucket, desired, m)
    decreases |objects| + 1 - n
  {
    FoundBound(objects, faults, bucket, desired, n);
    if HeadOf(objects, faults, ObjectId(bucket, Candidate(desired, n))) == Found then
      FoundBound(objects, faults, bucket, desired, n + 1);
      FirstUnfoundFrom(objects, faults, bucket, desired, n + 1)
    else
      n
  }

  /** What `next_available_key` returns or raises: the first candidate the
      probes do not find, when that probe failed with a not-found code, and
      otherwise the code of the failure it raises. */
  function Allocation(objects: map<ObjectId, Content>, faults: ProbeFaults, bucket: string, desired: string)
    : (r: Result<string, Option<string>>)
    ensures exists n: nat ::
              FirstUnfound(objects, faults, bucket, desired, n) && n <= |objects| + 1 &&
              (r.Ok? <==> IsNotFoundCode(HeadOf(objects, faults, ObjectId(bucket, Candidate(desired, n))).code)) &&
              (r.Ok? ==> r.value == Candidate(desired, n)) &&
              (r.Err? ==> HeadOf(objects, faults, ObjectId(bucket, Candidate(desired, n))) == ClientError(r.error))
    ensures r.Ok? ==> ObjectId(bucket, r.value) !in objects
  {
    var n := FirstUnfoundFrom(objects, faults, bucket, desired, 1);
    var code := HeadOf(objects, faults, ObjectId(bucket, Candidate(desired, n))).code;
    if IsNotFoundCode(code) then Ok(Candidate(desired, n)) else Err(code)
  }

  /** A desired key no object holds, and whose probe does not fault, is
      used as it is. */
  lemma {:induction false} AllocationFreeDesired(objects: map<ObjectId, Content>, faults: ProbeFaults,
                                                 bucket: string, desired: string)
    requires ObjectId(bucket, desired) !in objects && ObjectId(bucket, desired) !in faults
    ensures Allocation(objects, faults, bucket, desired) == Ok(desired)
  {
    assert FirstUnfound(objects, faults, bucket, desired, 1);
    FirstUnfoundUnique(objects, faults, bucket, desired, 1, FirstUnfoundFrom(objects, faults, bucket, desired, 1));
  }

  /** `next_available_key`: probe `desired`, `<root>-v2<ext>`,
      `<root>-v3<ext>`, ... until a probe fails. A failure with a
      not-found code returns that candidate; any other failure is raised.
      The probe only reads the store. */
  method NextAvailableKey(store: Store, bucket: string, desired: string)
    returns (r: Result<string, Option<string>>)
    ensures r == Allocation(store.objects, store.headFaults, bucket, desired)
  {
    var split := SplitExt(desired);
    var root, ext := split.0, split.1;
    var n: nat := 1;
    while true
      invariant n >= 1
      invariant ProbedFound(store.objects, store.headFaults, bucket, desired, n)
      decreases |store.objects| + 1 - n
    {
      FoundBound(store.objects, store.headFaults, bucket, desired, n);
      var candidate := if n == 1 then desired else root + "-v" + Decimal(n) + ext;
      assert candidate == Candidate(desired, n);
      var id := ObjectId(bucket, candidate);
      match store.Head(id)
      case Found =>
        FoundBound(store.objects, store.headFaults, bucket, desired, n + 1);
        n := n + 1;
      case ClientError(code) =>
        assert FirstUnfound(store.objects, store.headFaults, bucket, desired, n);
        FirstUnfoundUnique(store.objects, store.headFaults, bucket, desired, n,
                           FirstUnfoundFrom(store.objects, store.headFaults, bucket, desired, 1));
        if IsNotFoundCode(code) {
          return Ok(candidate);
        }
        return Err(code);
    }
  }

  datatype ConvertError =
    | ProbeFailed(code: Option<string>)   // raised by `next_available_key`
    | SourceMissing(id: ObjectId)         // `download_file` found no object

  /** The upload a record names. */
  function SourceOf(rec: Record): ObjectId {
    ObjectId(rec.bucket, rec.key)
  }

  /** What `handle_s3_record` does to the objects: allocate the output key,
      then download the upload and write its transcoding there. On success,
      the key written and the objects after; otherwise why it failed, in the
      order the code meets the failures. */
  function Convert(cfg: Config, objects: map<ObjectId, Content>, faults: ProbeFaults, rec: Record)
    : (r: Result<(ObjectId, map<ObjectId, Content>), ConvertError>)
    ensures var alloc := Allocation(objects, faults, cfg.outputBucket, DesiredKey(rec.key));
            (r.Ok? <==> alloc.Ok? && SourceOf(rec) in objects) &&
            (alloc.Err? ==> r == Err(ProbeFailed(alloc.error))) &&
            (alloc.Ok? && SourceOf(rec) !in objects ==> r == Err(SourceMissing(SourceOf(rec)))) &&
            (r.Ok? ==> r.value.0 == ObjectId(cfg.outputBucket, alloc.value) && r.value.0 !in objects &&
                       r.value.1 == objects[r.value.0 := Audio(SourceOf(rec))])
  {
    match Allocation(objects, faults, cfg.outputBucket, DesiredKey(rec.key))
    case Err(code) => Err(ProbeFailed(code))
    case Ok(key) =>
      if SourceOf(rec) !in objects then Err(SourceMissing(SourceOf(rec)))
      else
        var out := ObjectId(cfg.outputBucket, key);
        Ok((out, objects[out := Audio(SourceOf(rec))]))
  }

  /** `handle_s3_record`: allocate the output key, download the upload and
      write its transcoding at that key in the output bucket. The store
      changes exactly as `Convert` says, and not at all on failure. */
  method HandleRecord(store: Store, cfg: Config, rec: Record) returns (r: Result<ObjectId, ConvertError>)
    modifies store
    ensures var c := Convert(cfg, old(store.objects), store.headFaults, rec);
            (c.Ok? ==> r == Ok(c.value.0) && store.objects == c.value.1) &&
            (c.Err? ==> r == Err(c.error) && store.objects == old(store.objects))
  {
    var outKey := NextAvailableKey(store, cfg.outputBucket, DesiredKey(rec.key));
    if outKey.Err? {
      return Err(ProbeFailed(outKey.error));
    }
    var src := ObjectId(rec.bucket, rec.key);
    var download := store.Get(src);
    if download.Err? {
      return Err(SourceMissing(src));
    }
    var out := ObjectId(cfg.outputBucket, outKey.value);
    store.Put(out, Audio(src));
    return Ok(out);
  }

  /** The objects `before` holds once the conversion of `recs[k]` has been
      written at `written[k]`, for every `k` in order. */
  function Applied(before: map<ObjectId, Content>, written: seq<ObjectId>, recs: seq<Record>): map<ObjectId, Content>
    requires |written| == |recs|
  {
    if written == [] then before
    else
      var n := |written| - 1;
      Applied(before, written[..n], recs[..n])[written[n] := Audio(SourceOf(recs[n]))]
  }

  /** The keys `written` are distinct keys of `bucket` that `before` does
      not hold. */
  ghost predicate FreshKeys(before: map<ObjectId, Content>, bucket: string, written: seq<ObjectId>) {
    (forall k :: 0 <= k < |written| ==> written[k].bucket == bucket && written[k] !in before) &&
    (forall k, l :: 0 <= k < l < |written| ==> written[k] != written[l])
  }

  /** `after` is `before` plus the conversions of `recs`, the `k`-th
      written at `written[k]`: fresh, distinct keys in `bucket`. */
  ghost predicate Converted(before: map<ObjectId, Content>, after: map<ObjectId, Content>,
                            bucket: string, written: seq<ObjectId>, recs: seq<Record>)
  {
    |written| == |recs| && FreshKeys(before, bucket, written) && after == Applied(before, written, recs)
  }

  /** The conversions add exactly the keys written. */
  lemma {:induction false} AppliedKeys(before: map<ObjectId, Content>, written: seq<ObjectId>, recs: seq<Record>)
    requires |written| == |recs|
    ensures forall id :: id in Applied(before, written, recs) <==> id in before || id in written
    decreases |written|
  {
    if written != [] {
      var n := |written| - 1;
      AppliedKeys(before, written[..n], recs[..n]);
      assert written == written[..n] + [written[n]];
    }
  }

  /** Conversions written at keys `before` does not hold leave its objects
      as they were. */
  lemma {:induction false} AppliedKeeps(before: map<ObjectId, Content>, written: seq<ObjectId>, recs: seq<Record>)
    requires |written| == |recs|
    requires forall k :: 0 <= k < |written| ==> written[k] !in before
    ensures forall id :: id in before ==> id in Applied(before, written, recs) && Applied(before, written, recs)[id] == before[id]
    decreases |written|
  {
    if written != [] {
      var n := |written| - 1;
      AppliedKeeps(before, written[..n], recs[..n]);
    }
  }

  /** At distinct keys, each conversion stays where it was written. */
  lemma {:induction false} AppliedWrites(before: map<ObjectId, Content>, written: seq<ObjectId>, recs: seq<Record>)
    requires |written| == |recs|
    requires forall k, l :: 0 <= k < l < |written| ==> written[k] != written[l]
    ensures forall k :: 0 <= k < |written| ==> written[k] in Applied(before, written, recs) &&
                                                 Applied(before, written, recs)[written[k]] == Audio(SourceOf(recs[k]))
    decreases |written|
  {
    if written != [] {
      var n := |written| - 1;
      var w, p := written[..n], recs[..n];
      AppliedWrites(before, w, p);
      forall k | 0 <= k < n
        ensures Applied(before, written, recs)[written[k]] == Audio(SourceOf(recs[k]))
      {
        assert written[k] == w[k] && recs[k] == p[k];
      }
    }
  }

  /** After the conversions, the store holds exactly the objects it held
      before, unchanged, and the conversion of each record at its key. */
  lemma {:induction false} ConvertedContents(before: map<ObjectId, Content>, after: map<ObjectId, Content>,
                                             bucket: string, written: seq<ObjectId>, recs: seq<Record>)
    requires Converted(before, after, bucket, written, recs)
    ensures forall id :: id in before ==> id in after && after[id] == before[id]
    ensures forall k :: 0 <= k < |written| ==> written[k] in after && after[written[k]] == Audio(SourceOf(recs[k]))
    ensures forall id :: id in after ==> id in before || id in written
  {
    AppliedKeys(before, written, recs);
    AppliedKeeps(before, written, recs);
    AppliedWrites(before, written, recs);
  }

  /** One more conversion, of the last record of `recs`, at a key of
      `bucket` no object holds keeps `Converted`. */
  lemma {:induction false} ConvertedStep(before: map<ObjectId, Content>, after: map<ObjectId, Content>, bucket: string,
                                         written: seq<ObjectId>, recs: seq<Record>, out: ObjectId)
    requires recs != [] && Converted(before, after, bucket, written, recs[..|recs| - 1])
    requires out.bucket == bucket && out !in after
    ensures Converted(before, after[out := Audio(SourceOf(recs[|recs| - 1]))], bucket, written + [out], recs)
  {
    AppliedKeys(before, written, recs[..|recs| - 1]);
    var w := written + [out];
    assert w[..|written|] == written;
  }

  /** Applying the conversions `w1` and then `w2` is applying `w1 + w2`. */
  lemma {:induction false} AppliedConcat(before: map<ObjectId, Content>, w1: seq<ObjectId>, p1: seq<Record>,
                                         w2: seq<ObjectId>, p2: seq<Record>)
    requires |w1| == |p1| && |w2| == |p2|
    ensures Applied(before, w1 + w2, p1 + p2) == Applied(Applied(before, w1, p1), w2, p2)
    decreases |w2|
  {
    if w2 == [] {
      assert w1 + w2 == w1 && p1 + p2 == p1;
    } else {
      var n := |w2| - 1;
      AppliedConcat(before, w1, p1, w2[..n], p2[..n]);
      assert (w1 + w2)[..|w1| + n] == w1 + w2[..n];
      assert (p1 + p2)[..|p1| + n] == p1 + p2[..n];
    }
  }

  /** Conversions into a store that already holds earlier ones add up. */
  lemma {:induction false} ConvertedCompose(before: map<ObjectId, Content>, mid: map<ObjectId, Content>,
                                            after: map<ObjectId, Content>, bucket: string,
                                            w1: seq<ObjectId>, p1: seq<Record>, w2: seq<ObjectId>, p2: seq<Record>)
    requires Converted(before, mid, bucket, w1, p1)
    requires Converted(mid, after, bucket, w2, p2)
    ensures Converted(before, after, bucket, w1 + w2, p1 + p2)
  {
    ConvertedContents(before, mid, bucket, w1, p1);
    AppliedConcat(before, w1, p1, w2, p2);
    var w := w1 + w2;
    forall k | 0 <= k < |w|
      ensures w[k].bucket == bucket && w[k] !in before
    {
      if k >= |w1| {
        assert w[k] == w2[k - |w1|];
      }
    }
    forall k, l | 0 <= k < l < |w|
      ensures w[k] != w[l]
    {
      if l >= |w1| {
        assert w[l] == w2[l - |w1|] && w[l] !in mid;
        if k < |w1| {
          assert w[k] == w1[k] && w1[k] in mid;
        } else {
          assert w[k] == w2[k - |w1|];
        }
      }
    }
  }


  // ---------------------------------------------------------------------
  // The handler

  /** Where a run of `handle_s3_record` calls got to: the objects, the keys
      written in order, and the failure that stopped it, if any. */
  datatype Run = Run(objects: map<ObjectId, Content>, written: seq<ObjectId>, failure: Option<ConvertError>)

  /** One call on a record: the key it wrote and the objects it leaves, or
      why it failed. */
  type Step = (map<ObjectId, Content>, Record) -> Result<(ObjectId, map<ObjectId, Content>), ConvertError>

  /** `step` applied to `recs` in order from `objects`, stopping at the
      first failure. */
  function Fold(step: Step, objects: map<ObjectId, Content>, recs: seq<Record>): Run
  {
    if recs == [] then Run(objects, [], None)
    else
      var run := Fold(step, objects, recs[..|recs| - 1]);
      if run.failure.Some? then run
      else match step(run.objects, recs[|recs| - 1])
        case Ok(w) => Run(w.1, run.written + [w.0], None)
        case Err(e) => Run(run.objects, run.written, Some(e))
  }

  /** One record more: apply `step` to it if the run so far went through. */
  lemma {:induction false} FoldStep(step: Step, objects: map<ObjectId, Content>, recs: seq<Record>, rec: Record,
                                    mid: map<ObjectId, Content>, written: seq<ObjectId>)
    requires Fold(step, objects, recs) == Run(mid, written, None)
    ensures Fold(step, objects, recs + [rec]) ==
            match step(mid, rec)
            case Ok(w) => Run(w.1, written + [w.0], None)
            case Err(e) => Run(mid, written, Some(e))
  {
    assert (recs + [rec])[..|recs|] == recs;
  }

  /** A run writes at most one key per record, and one for every record
      exactly when it goes through. */
  lemma {:induction false} FoldLength(step: Step, objects: map<ObjectId, Content>, recs: seq<Record>)
    ensures |Fold(step, objects, recs).written| <= |recs|
    ensures Fold(step, objects, recs).failure.None? <==> |Fold(step, objects, recs).written| == |recs|
    decreases |recs|
  {
    if recs != [] {
      FoldLength(step, objects, recs[..|recs| - 1]);
    }
  }

  /** After a run that went through, the records of `b` carry on from
      where the records of `a` left the objects, writing after its keys. */
  lemma {:induction false} FoldConcat(step: Step, objects: map<ObjectId, Content>, a: seq<Record>, b: seq<Record>)
    requires Fold(step, objects, a).failure.None?
    ensures var first := Fold(step, objects, a);
            var rest := Fold(step, first.objects, b);
            Fold(step, objects, a + b) == Run(rest.objects, first.written + rest.written, rest.failure)
    decreases |b|
  {
    var first := Fold(step, objects, a);
    if b == [] {
      assert a + b == a;
      assert first.written + [] == first.written;
    } else {
      var n := |b| - 1;
      FoldConcat(step, objects, a, b[..n]);
      assert (a + b)[..|a| + n] == a + b[..n];
      assert (a + b)[|a| + n] == b[n];
      var rest := Fold(step, first.objects, b[..n]);
      if rest.failure.None? {
        match step(rest.objects, b[n])
        case Ok(w) =>
          assert (first.written + rest.written) + [w.0] == first.written + (rest.written + [w.0]);
        case Err(e) =>
      }
    }
  }

  /** Once a run has failed, later records change nothing. */
  lemma {:induction false} FoldFailed(step: Step, objects: map<ObjectId, Content>, a: seq<Record>, b: seq<Record>)
    requires Fold(step, objects, a).failure.Some?
    requires a <= b
    ensures Fold(step, objects, b) == Fold(step, objects, a)
    decreases |b|
  {
    if |b| > |a| {
      FoldFailed(step, objects, a, b[..|b| - 1]);
    } else {
      assert a == b;
    }
  }

  /** The `k`-th key of a run is the one `step` wrote for the `k`-th
      record, applied to the objects the records before it left. */
  lemma {:induction false} FoldAt(step: Step, objects: map<ObjectId, Content>, recs: seq<Record>, k: nat)
    requires k < |Fold(step, objects, recs).written|
    ensures k < |recs|
    ensures var before := Fold(step, objects, recs[..k]);
            before.failure.None? && step(before.objects, recs[k]).Ok? &&
            step(before.objects, recs[k]).value.0 == Fold(step, objects, recs).written[k]
    decreases |recs|
  {
    FoldLength(step, objects, recs);
    var n := |recs| - 1;
    var run := Fold(step, objects, recs[..n]);
    FoldLength(step, objects, recs[..n]);
    if k < |run.written| {
      FoldAt(step, objects, recs[..n], k);
      assert recs[..n][..k] == recs[..k];
    } else {
      assert recs[..k] == recs[..n];
    }
  }

  /** `handle_s3_record` on a record, against the store's probe faults. */
  function Converting(cfg: Config, faults: ProbeFaults): Step {
    (objects: map<ObjectId, Content>, rec: Record) => Convert(cfg, objects, faults, rec)
  }

  /** Converting `recs` in order, stopping at the first failure. */
  function ConvertAll(cfg: Config, objects: map<ObjectId, Content>, faults: ProbeFaults, recs: seq<Record>): Run {
    Fold(Converting(cfg, faults), objects, recs)
  }

  /** A conversion of the last record of `recs` that goes through extends
      `Converted` by that record. */
  lemma {:induction false} ConvertExtends(cfg: Config, before: map<ObjectId, Content>, mid: map<ObjectId, Content>,
                                          faults: ProbeFaults, written: seq<ObjectId>, recs: seq<Record>)
    requires recs != [] && Converted(before, mid, cfg.outputBucket, written, recs[..|recs| - 1])
    requires Convert(cfg, mid, faults, recs[|recs| - 1]).Ok?
    ensures var w := Convert(cfg, mid, faults, recs[|recs| - 1]).value;
            Converted(before, w.1, cfg.outputBucket, written + [w.0], recs)
  {
    var w := Convert(cfg, mid, faults, recs[|recs| - 1]).value;
    ConvertedStep(before, mid, cfg.outputBucket, written, recs, w.0);
  }

  /** A run of conversions writes one key per record converted, goes
      through exactly when it converts every record, and leaves `Converted`:
      the old objects unchanged, plus each record's transcoding at a fresh
      key of the output bucket, no two at the same key. */
  lemma {:induction false} ConvertAllConverted(cfg: Config, objects: map<ObjectId, Content>, faults: ProbeFaults,
                                               recs: seq<Record>)
    ensures var run := ConvertAll(cfg, objects, faults, recs);
            |run.written| <= |recs| && (run.failure.None? <==> |run.written| == |recs|) &&
            Converted(objects, run.objects, cfg.outputBucket, run.written, recs[..|run.written|])
    decreases |recs|
  {
    FoldLength(Converting(cfg, faults), objects, recs);
    if recs != [] {
      var n := |recs| - 1;
      ConvertAllConverted(cfg, objects, faults, recs[..n]);
      FoldLength(Converting(cfg, faults), objects, recs[..n]);
      var run := ConvertAll(cfg, objects, faults, recs[..n]);
      assert recs[..n][..|run.written|] == recs[..|run.written|];
      ConvertAllLast(cfg, objects, faults, recs);
    }
  }

  /** A last record converted after a run that went through. */
  lemma {:induction false} ConvertAllGoes(cfg: Config, objects: map<ObjectId, Content>, faults: ProbeFaults,
                                          recs: seq<Record>, run: Run, w: (ObjectId, map<ObjectId, Content>))
    requires recs != [] && run == ConvertAll(cfg, objects, faults, recs[..|recs| - 1])
    requires run.failure.None? && Convert(cfg, run.objects, faults, recs[|recs| - 1]) == Ok(w)
    ensures ConvertAll(cfg, objects, faults, recs) == Run(w.1, run.written + [w.0], None)
  {
    assert Converting(cfg, faults)(run.objects, recs[|recs| - 1]) == Ok(w);
  }

  /** The last record of a run: it changes nothing after a failure, fails,
      or extends `Converted` by one conversion. */
  lemma {:induction false} ConvertAllLast(cfg: Config, objects: map<ObjectId, Content>, faults: ProbeFaults,
                                          recs: seq<Record>)
    requires recs != []
    requires var run := ConvertAll(cfg, objects, faults, recs[..|recs| - 1]);
             |run.written| <= |recs| - 1 && (run.failure.None? ==> |run.written| == |recs| - 1) &&
             Converted(objects, run.objects, cfg.outputBucket, run.written, recs[..|run.written|])
    ensures var run := ConvertAll(cfg, objects, faults, recs);
            |run.written| <= |recs| &&
            Converted(objects, run.objects, cfg.outputBucket, run.written, recs[..|run.written|])
  {
    FoldLength(Converting(cfg, faults), objects, recs);
    var n := |recs| - 1;
    var run := ConvertAll(cfg, objects, faults, recs[..n]);
    var whole := ConvertAll(cfg, objects, faults, recs);
    if run.failure.None? {
      var c := Convert(cfg, run.objects, faults, recs[n]);
      assert Converting(cfg, faults)(run.objects, recs[n]) == c;
      if c.Ok? {
        ConvertAllGoes(cfg, objects, faults, recs, run, c.value);
        ConvertExtends(cfg, objects, run.objects, faults, run.written, recs);
        assert recs == recs[..|whole.written|];
      } else {
        assert whole == Run(run.objects, run.written, Some(c.error));
      }
    } else {
      assert whole == run;
    }
  }

  /** The `k`-th key written is the one `next_available_key` picks for the
      `k`-th record in the objects the earlier conversions left: the desired
      key of its upload, or its first `-v<n>` variant the probes do not
      find, in the output bucket. */
  lemma {:induction false} ConvertAllNames(cfg: Config, objects: map<ObjectId, Content>, faults: ProbeFaults,
                                           recs: seq<Record>, k: nat)
    requires k < |ConvertAll(cfg, objects, faults, recs).written|
    ensures k < |recs|
    ensures var before := ConvertAll(cfg, objects, faults, recs[..k]).objects;
            var out := ConvertAll(cfg, objects, faults, recs).written[k];
            out.bucket == cfg.outputBucket && SourceOf(recs[k]) in before &&
            exists n: nat :: FirstUnfound(before, faults, cfg.outputBucket, DesiredKey(recs[k].key), n) &&
                             out.key == Candidate(DesiredKey(recs[k].key), n)
  {
    FoldAt(Converting(cfg, faults), objects, recs, k);
    var before := ConvertAll(cfg, objects, faults, recs[..k]).objects;
    var c := Convert(cfg, before, faults, recs[k]);
    assert c.Ok?;
  }

  /** The inner loop of `handler`: convert the S3 records of one message
      in order, stopping at the first failure. */
  method ConvertRecords(store: Store, cfg: Config, recs: seq<Record>) returns (r: Result<(), ConvertError>)
    modifies store
    ensures var run := ConvertAll(cfg, old(store.objects), store.headFaults, S3Records(recs));
            store.objects == run.objects && (r.Err? <==> run.failure.Some?) &&
            (r.Err? ==> r.error == run.failure.value)
  {
    ghost var added: seq<ObjectId> := [];
    var j := 0;
    while j < |recs|
      invariant 0 <= j <= |recs|
      invariant ConvertAll(cfg, old(store.objects), store.headFaults, S3Records(recs[..j])) == Run(store.objects, added, None)
    {
      var rec := recs[j];
      S3RecordsStep(recs, j);
      if IsS3(rec) {
        FoldStep(Converting(cfg, store.headFaults), old(store.objects), S3Records(recs[..j]), rec, store.objects, added);
        var res := HandleRecord(store, cfg, rec);
        if res.Err? {
          S3RecordsPrefix(recs, j + 1);
          FoldFailed(Converting(cfg, store.headFaults), old(store.objects), S3Records(recs[..j + 1]), S3Records(recs));
          return Err(res.error);
        }
        added := added + [res.value];
      } else {
        assert S3Records(recs[..j]) + [] == S3Records(recs[..j]);
      }
      j := j + 1;
    }
    assert recs[..j] == recs;
    return Ok(());
  }

  /** `handler`: convert every S3 record of every message, in order; the
      first failure propagates and ends the invocation. */
  method Handler(store: Store, cfg: Config, event: Event) returns (r: Result<(), ConvertError>)
    modifies store
    ensures var run := ConvertAll(cfg, old(store.objects), store.headFaults, SelectedOf(event));
            store.objects == run.objects && (r.Err? <==> run.failure.Some?) &&
            (r.Err? ==> r.error == run.failure.value)
  {
    var msgs := Messages(event);
    ghost var written: seq<ObjectId> := [];
    var i := 0;
    while i < |msgs|
      invariant 0 <= i <= |msgs|
      invariant ConvertAll(cfg, old(store.objects), store.headFaults, Selected(msgs[..i])) == Run(store.objects, written, None)
    {
      ghost var mid := store.objects;
      FoldConcat(Converting(cfg, store.headFaults), old(store.objects), Selected(msgs[..i]), S3Records(RecordsOf(msgs[i])));
      r := ConvertRecords(store, cfg, RecordsOf(msgs[i]));
      SelectedStep(msgs, i);
      if r.Err? {
        SelectedPrefix(msgs, i + 1);
        FoldFailed(Converting(cfg, store.headFaults), old(store.objects), Selected(msgs[..i + 1]), Selected(msgs));
        return;
      }
      written := written + ConvertAll(cfg, mid, store.headFaults, S3Records(RecordsOf(msgs[i]))).written;
      i := i + 1;
    }
    assert msgs[..i] == msgs;
    return Ok(());
  }
}
