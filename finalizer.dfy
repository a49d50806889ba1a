/** The Finalizer stage (`finalize_to_text`): for each transcription
    result written under `RAW_PREFIX + base + "/"` it extracts the
    transcript and writes it as plain text under `FINAL_PREFIX`, named
    after the base name and (unless the name already says it) the
    detected language, then optionally deletes the result document. */
module Finalizer {
  import opened Wrappers
  import opened PyStr
  import opened Events
  import opened S3

  datatype Config = Config(resultBucket: string, rawPrefix: string, finalPrefix: string, deleteJson: bool)

  /** The configuration read at import. Every entry has a default;
      `DELETE_JSON` is on exactly when it is absent or reads `true` in any
      letter case (no character outside ASCII lower-cases into `true`, so
      ASCII lower-casing decides this comparison as Python's does). */
  function ConfigFromEnv(env: map<string, string>): (c: Config)
    ensures "RESULT_BUCKET" in env ==> c.resultBucket == env["RESULT_BUCKET"]
    ensures "RESULT_BUCKET" !in env ==> c.resultBucket == "media-transcripts-caleb"
    ensures "RAW_PREFIX" in env ==> c.rawPrefix == env["RAW_PREFIX"]
    ensures "RAW_PREFIX" !in env ==> c.rawPrefix == "raw/"
    ensures "FINAL_PREFIX" in env ==> c.finalPrefix == env["FINAL_PREFIX"]
    ensures "FINAL_PREFIX" !in env ==> c.finalPrefix == "final/"
    ensures "DELETE_JSON" in env ==> (c.deleteJson <==> Lower(env["DELETE_JSON"]) == "true")
    ensures "DELETE_JSON" !in env ==> c.deleteJson
    ensures "DELETE_JSON" in env && |env["DELETE_JSON"]| != 4 ==> !c.deleteJson
  {
    var bucket := if "RESULT_BUCKET" in env then env["RESULT_BUCKET"] else "media-transcripts-caleb";
    var raw := if "RAW_PREFIX" in env then env["RAW_PREFIX"] else "raw/";
    var final := if "FINAL_PREFIX" in env then env["FINAL_PREFIX"] else "final/";
    var delete := if "DELETE_JSON" in env then env["DELETE_JSON"] else "true";
    Config(bucket, raw, final, Lower(delete) == "true")
  }

  /** Any letter case of `true` keeps the deletion on. */
  lemma {:induction false} DeleteJsonAnyCase(env: map<string, string>)
    requires "DELETE_JSON" in env
    requires var v := env["DELETE_JSON"];
             |v| == 4 && v[0] in {'t', 'T'} && v[1] in {'r', 'R'} && v[2] in {'u', 'U'} && v[3] in {'e', 'E'}
    ensures ConfigFromEnv(env).deleteJson
  {
    var v := env["DELETE_JSON"];
    assert Lower(v) == [LowerChar(v[0]), LowerChar(v[1]), LowerChar(v[2]), LowerChar(v[3])];
  }

  // ---------------------------------------------------------------------
  // The language suffix, as `had_lang_suffix` tests it

  /** The separators the pattern accepts before the token: `[-_.]`. */
  predicate IsSeparator(c: char) {
    c == '-' || c == '_' || c == '.'
  }

  /** `w` is one of the tokens `fr`, `en`, `eng`, in any letter case. */
  predicate IsLangToken(w: string) {
    if |w| == 2 then
      (LowerChar(w[0]) == 'f' && LowerChar(w[1]) == 'r') || (LowerChar(w[0]) == 'e' && LowerChar(w[1]) == 'n')
    else
      |w| == 3 && LowerChar(w[0]) == 'e' && LowerChar(w[1]) == 'n' && LowerChar(w[2]) == 'g'
  }

  /** The last `n` characters of `t` are a token and a separator precedes
      them. */
  predicate TaggedLast(t: string, n: nat) {
    n < |t| && IsSeparator(t[|t| - n - 1]) && IsLangToken(t[|t| - n..])
  }

  /** `had_lang_suffix`: `(?i)(?:[-_.])(fr|eng|en)$` matches the stripped
      base name. Every token has two or three letters. */
  predicate HadLangSuffix(base: string) {
    var t := Strip(base, Whitespace);
    TaggedLast(t, 2) || TaggedLast(t, 3)
  }

  /** A base name ending in a separator and a token, in any letter case,
      has a language suffix, whatever precedes them. */
  lemma {:induction false} HadLangSuffixCases(stem: string, sep: char, token: string)
    requires IsSeparator(sep) && IsLangToken(token)
    ensures HadLangSuffix(stem + [sep] + token)
  {
    var tail := [sep] + token;
    forall k | 0 <= k < |tail| ensures tail[k] !in Whitespace {
      if k > 0 {
        assert tail[k] == token[k - 1];
      }
    }
    StripKeepsTail(stem, tail, Whitespace);
    assert stem + [sep] + token == stem + tail;
    TaggedTail(Strip(stem + tail, Whitespace), sep, token);
  }

  /** A string ending in a separator and a token is tagged. */
  lemma {:induction false} TaggedTail(t: string, sep: char, token: string)
    requires IsSeparator(sep) && IsLangToken(token)
    requires EndsWith(t, [sep] + token)
    ensures TaggedLast(t, |token|)
  {
    var n := |token|;
    assert t[|t| - n - 1..][0] == sep;
    assert t[|t| - n..] == ([sep] + token)[1..];
    assert ([sep] + token)[1..] == token;
  }

  /** A base name whose last character, once stripped, is a separator or
      none of the tokens' last letters has no language suffix. */
  lemma {:induction false} HadLangSuffixUntagged(base: string)
    requires base != [] && base[|base| - 1] !in Whitespace
    requires LowerChar(base[|base| - 1]) !in {'r', 'n', 'g'}
    ensures !HadLangSuffix(base)
  {
    var tail := [base[|base| - 1]];
    assert base[..|base| - 1] + tail == base;
    StripKeepsTail(base[..|base| - 1], tail, Whitespace);
    var t := Strip(base, Whitespace);
    assert t[|t| - 1] == base[|base| - 1];
    if |t| > 2 {
      assert t[|t| - 2..][1] == t[|t| - 1];
    }
    if |t| > 3 {
      assert t[|t| - 3..][2] == t[|t| - 1];
    }
  }

  // ---------------------------------------------------------------------
  // The result document

  /** `extract_text`: the `transcript` of the first entry of
      `results.transcripts`, with `""` for every missing key; `None` when
      `transcripts` is present but empty, where the indexing raises. */
  function ExtractText(doc: TranscriptDoc): (text: Option<string>)
    ensures text.None? <==> doc.results.Some? && doc.results.value.transcripts == Some([])
  {
    var results := doc.results.GetOr(Results(None, None));
    var entries := results.transcripts.GetOr([TranscriptEntry(None)]);
    if entries == [] then None else Some(entries[0].transcript.GetOr(""))
  }

  /** A document without `results`, or without `transcripts`, yields the
      empty text. */
  lemma {:induction false} ExtractTextMissing(doc: TranscriptDoc)
    requires doc.results.None? || doc.results.value.transcripts.None?
    ensures ExtractText(doc) == Some("")
  {
  }

  /** The first transcript is the text, whatever follows it; an entry
      without `transcript` gives the empty text. */
  lemma {:induction false} ExtractTextFirst(text: Option<string>, more: seq<TranscriptEntry>, lang: Option<string>)
    ensures var doc := TranscriptDoc(Some(Results(Some([TranscriptEntry(text)] + more), lang)));
            ExtractText(doc) == Some(if text.Some? then text.value else "")
  {
  }

  /** `results.language_code`, or `und` when it or `results` is absent. */
  function Language(doc: TranscriptDoc): (lang: string)
    ensures doc.results.None? || doc.results.value.languageCode.None? ==> lang == "und"
    ensures doc.results.Some? && doc.results.value.languageCode.Some? ==> lang == doc.results.value.languageCode.value
  {
    doc.results.GetOr(Results(None, None)).languageCode.GetOr("und")
  }

  // ---------------------------------------------------------------------
  // Keys

  /** The key filter of `finalize_object`: a key under `RAW_PREFIX`
      ending in `.json` with at least three `/`-separated segments gives
      its segment 1 as the base name; any other key is skipped. */
  function AcceptedBase(cfg: Config, key: string): Option<string> {
    if !StartsWith(key, cfg.rawPrefix) || !EndsWith(key, ".json") then None
    else
      var parts := Split(key, '/');
      if |parts| < 3 then None else Some(parts[1])
  }

  /** An accepted key is a `.json` key under `RAW_PREFIX`, and its base
      name is a single segment. */
  lemma {:induction false} AcceptedBaseShape(cfg: Config, key: string)
    requires AcceptedBase(cfg, key).Some?
    ensures StartsWith(key, cfg.rawPrefix) && EndsWith(key, ".json")
    ensures '/' !in AcceptedBase(cfg, key).value
  {
    assert Split(key, '/')[1] in Split(key, '/');
  }

  /** A key is accepted exactly when it starts with `RAW_PREFIX`, ends in
      `.json` and holds at least two `/`. */
  lemma {:induction false} AcceptedBaseSlashes(cfg: Config, key: string)
    ensures AcceptedBase(cfg, key).Some? <==>
            StartsWith(key, cfg.rawPrefix) && EndsWith(key, ".json") && multiset(key)['/'] >= 2
  {
    SplitCount(key, '/');
  }

  /** The base name is what lies between the first and the second `/`. */
  lemma {:induction false} AcceptedBaseSegment(cfg: Config, first: string, base: string, rest: string)
    requires '/' !in first && '/' !in base
    requires StartsWith(first + "/" + base + "/" + rest, cfg.rawPrefix)
    requires EndsWith(first + "/" + base + "/" + rest, ".json")
    ensures AcceptedBase(cfg, first + "/" + base + "/" + rest) == Some(base)
  {
    var key := first + "/" + base + "/" + rest;
    assert key == first + ['/'] + (base + ['/'] + rest);
    SplitAfterPiece(first, base + ['/'] + rest, '/');
    SplitAfterPiece(base, rest, '/');
  }

  /** The text's key: `FINAL_PREFIX + base + ".txt"` when the base name
      carries a language suffix, else `FINAL_PREFIX + base + "-" + lang +
      ".txt"`. */
  function FinalKey(cfg: Config, base: string, lang: string): string {
    if HadLangSuffix(base) then cfg.finalPrefix + base + ".txt"
    else cfg.finalPrefix + base + "-" + lang + ".txt"
  }

  /** The text's key is the final prefix and the base name, then `.txt`
      right away exactly when the base name carries a language suffix. */
  lemma {:induction false} FinalKeyShape(cfg: Config, base: string, lang: string)
    ensures var key := FinalKey(cfg, base, lang);
            StartsWith(key, cfg.finalPrefix + base) && EndsWith(key, ".txt") &&
            (HadLangSuffix(base) <==> |key| == |cfg.finalPrefix| + |base| + 4) &&
            (HadLangSuffix(base) ==> key[|cfg.finalPrefix| + |base|..] == ".txt") &&
            (!HadLangSuffix(base) ==> key[|cfg.finalPrefix| + |base|..] == "-" + lang + ".txt")
  {
    var key := FinalKey(cfg, base, lang);
    var stem := cfg.finalPrefix + base;
    if HadLangSuffix(base) {
      assert key == stem + ".txt";
    } else {
      assert key == stem + ("-" + lang + ".txt");
      assert key[|key| - 4..] == ".txt";
    }
  }

  /** Bases that agree on having a language suffix, finalized in the same
      language, get different keys when they differ. */
  lemma {:induction false} FinalKeyInjective(cfg: Config, b1: string, b2: string, lang: string)
    requires HadLangSuffix(b1) == HadLangSuffix(b2)
    requires FinalKey(cfg, b1, lang) == FinalKey(cfg, b2, lang)
    ensures b1 == b2
  {
    var t := if HadLangSuffix(b1) then ".txt" else "-" + lang + ".txt";
    FinalKeyAs(cfg, b1, lang, t);
    FinalKeyAs(cfg, b2, lang, t);
    MiddleCancels(cfg.finalPrefix, b1, b2, t);
  }

  /** The final key with its tail named. */
  lemma {:induction false} FinalKeyAs(cfg: Config, base: string, lang: string, t: string)
    requires t == if HadLangSuffix(base) then ".txt" else "-" + lang + ".txt"
    ensures FinalKey(cfg, base, lang) == cfg.finalPrefix + base + t
  {
    if !HadLangSuffix(base) {
      assert cfg.finalPrefix + base + "-" + lang + ".txt" == cfg.finalPrefix + base + ("-" + lang + ".txt");
    }
  }

  /** Equal strings with the same prefix and suffix have the same middle. */
  lemma {:induction false} MiddleCancels(p: string, a: string, b: string, t: string)
    requires p + a + t == p + b + t
    ensures a == b
  {
    var k := p + a + t;
    assert |a| == |b|;
    assert a == k[|p|..|p| + |a|];
    assert b == (p + b + t)[|p|..|p| + |b|];
  }

  /** A tagged base and an untagged one can meet: `x-fr-FR` (tagged, as it
      ends in `-FR`) and `x` with the detected language `fr-FR` are both
      finalized as `x-fr-FR.txt`, the later text replacing the earlier one. */
  lemma {:induction false} FinalKeyTaggedMeetsDetected(cfg: Config, lang: string)
    ensures FinalKey(cfg, "x-fr-FR", lang) == FinalKey(cfg, "x", "fr-FR") == cfg.finalPrefix + "x-fr-FR.txt"
  {
    TaggedFrFR();
    HadLangSuffixUntagged("x");
    var p := cfg.finalPrefix;
    assert p + "x" + "-" + "fr-FR" + ".txt" == p + "x-fr-FR.txt";
    assert p + "x-fr-FR" + ".txt" == p + "x-fr-FR.txt";
  }

  /** `x-fr-FR` counts as tagged. */
  lemma {:induction false} TaggedFrFR()
    ensures HadLangSuffix("x-fr-FR")
  {
    assert IsLangToken("FR");
    assert "x-fr-FR" == "x-fr" + ['-'] + "FR";
    HadLangSuffixCases("x-fr", '-', "FR");
  }

  /** The source document and the text never share a key: one ends in
      `.json`, the other in `.txt`. */
  lemma {:induction false} JsonIsNotText(key: string, text: string)
    requires EndsWith(key, ".json") && EndsWith(text, ".txt")
    ensures key != text
  {
    assert key[|key| - 1] == 'n';
    assert text[|text| - 1] == 't';
  }

  /** A final text is never taken for a result document: its key ends in
      `.txt`, so a notification about it is skipped. */
  lemma {:induction false} FinalKeySkipped(cfg: Config, base: string, lang: string)
    ensures AcceptedBase(cfg, FinalKey(cfg, base, lang)) == None
  {
    var key := FinalKey(cfg, base, lang);
    FinalKeyShape(cfg, base, lang);
    if EndsWith(key, ".json") {
      JsonIsNotText(key, key);
    }
  }

  // ---------------------------------------------------------------------
  // One object

  datatype FinalizeError =
    | NoSuchObject(id: ObjectId)      // `get_object` raised `NoSuchKey`
    | NotATranscript(id: ObjectId)    // the object is not a result document
    | NoTranscripts(id: ObjectId)     // `transcripts` is empty: `[0]` raised

  /** What `finalize_object(bucket, key)` does to the objects: nothing for
      a skipped key; for an accepted one the text is put in
      `RESULT_BUCKET` and then, if `DELETE_JSON`, the document deleted. */
  function Finalize(cfg: Config, objects: map<ObjectId, Content>, bucket: string, key: string)
    : Result<map<ObjectId, Content>, FinalizeError>
  {
    match AcceptedBase(cfg, key)
    case None => Ok(objects)
    case Some(base) =>
      var src := ObjectId(bucket, key);
      if src !in objects then Err(NoSuchObject(src))
      else if !objects[src].Json? then Err(NotATranscript(src))
      else
        var doc := objects[src].doc;
        match ExtractText(doc)
        case None => Err(NoTranscripts(src))
        case Some(text) =>
          var out := ObjectId(cfg.resultBucket, FinalKey(cfg, base, Language(doc)));
          var written := objects[out := Text(text)];
          Ok(if cfg.deleteJson then written - {src} else written)
  }

  /** A key off the `RAW_PREFIX`/`.json`/two-slash pattern is read,
      written and deleted nowhere. */
  lemma {:induction false} FinalizeSkips(cfg: Config, objects: map<ObjectId, Content>, bucket: string, key: string)
    requires !StartsWith(key, cfg.rawPrefix) || !EndsWith(key, ".json") || multiset(key)['/'] < 2
    ensures Finalize(cfg, objects, bucket, key) == Ok(objects)
  {
    AcceptedBaseSlashes(cfg, key);
  }

  /** The text of the document goes to the final key in `RESULT_BUCKET`;
      the document stays exactly when `DELETE_JSON` is off; no other
      object changes. */
  lemma {:induction false} FinalizeEffect(cfg: Config, objects: map<ObjectId, Content>, bucket: string, key: string,
                                          base: string)
    requires AcceptedBase(cfg, key) == Some(base)
    requires Finalize(cfg, objects, bucket, key).Ok?
    ensures var src := ObjectId(bucket, key);
            var after := Finalize(cfg, objects, bucket, key).value;
            src in objects && objects[src].Json? && ExtractText(objects[src].doc).Some? &&
            var doc := objects[src].doc;
            var out := ObjectId(cfg.resultBucket, FinalKey(cfg, base, Language(doc)));
            out != src && out in after && after[out] == Text(ExtractText(doc).value) &&
            (src in after <==> !cfg.deleteJson) && (src in after ==> after[src] == objects[src]) &&
            forall id :: id != out && id != src ==>
              (id in after <==> id in objects) && (id in after ==> after[id] == objects[id])
  {
    var src := ObjectId(bucket, key);
    var doc := objects[src].doc;
    AcceptedBaseShape(cfg, key);
    FinalKeyShape(cfg, base, Language(doc));
    JsonIsNotText(key, FinalKey(cfg, base, Language(doc)));
  }

  /** The ways `finalize_object` fails, all before anything is written. */
  lemma {:induction false} FinalizeErrors(cfg: Config, objects: map<ObjectId, Content>, bucket: string, key: string)
    requires Finalize(cfg, objects, bucket, key).Err?
    ensures AcceptedBase(cfg, key).Some?
    ensures var src := ObjectId(bucket, key);
            var e := Finalize(cfg, objects, bucket, key).error;
            e.id == src &&
            (e.NoSuchObject? <==> src !in objects) &&
            (e.NotATranscript? <==> src in objects && !objects[src].Json?) &&
            (e.NoTranscripts? <==> src in objects && objects[src].Json? && ExtractText(objects[src].doc).None?)
  {
  }

  /** With `DELETE_JSON` off, finalizing the same key again changes
      nothing more: same final key, same text. */
  lemma {:induction false} FinalizeRerun(cfg: Config, objects: map<ObjectId, Content>, bucket: string, key: string)
    requires !cfg.deleteJson
    requires Finalize(cfg, objects, bucket, key).Ok?
    ensures var after := Finalize(cfg, objects, bucket, key).value;
            Finalize(cfg, after, bucket, key) == Ok(after)
  {
    if AcceptedBase(cfg, key).Some? {
      var base := AcceptedBase(cfg, key).value;
      FinalizeEffect(cfg, objects, bucket, key, base);
      var after := Finalize(cfg, objects, bucket, key).value;
      var src := ObjectId(bucket, key);
      var doc := objects[src].doc;
      var out := ObjectId(cfg.resultBucket, FinalKey(cfg, base, Language(doc)));
      assert after[src] == objects[src];
      assert after[out := Text(ExtractText(doc).value)] == after;
    }
  }

  /** With `DELETE_JSON` on, a second delivery of the same record fails
      on the missing document and changes nothing. */
  lemma {:induction false} FinalizeRerunDeleted(cfg: Config, objects: map<ObjectId, Content>, bucket: string, key: string)
    requires cfg.deleteJson && AcceptedBase(cfg, key).Some?
    requires Finalize(cfg, objects, bucket, key).Ok?
    ensures var after := Finalize(cfg, objects, bucket, key).value;
            Finalize(cfg, after, bucket, key) == Err(NoSuchObject(ObjectId(bucket, key)))
  {
    FinalizeEffect(cfg, objects, bucket, key, AcceptedBase(cfg, key).value);
  }

  /** `finalize_object(bucket, key)`: filter the key, read and parse the
      document, then put the text and delete the document if asked. */
  method FinalizeObject(store: Store, cfg: Config, bucket: string, key: string) returns (r: Result<(), FinalizeError>)
    modifies store
    ensures Finalize(cfg, old(store.objects), bucket, key).Ok? ==>
              r.Ok? && store.objects == Finalize(cfg, old(store.objects), bucket, key).value
    ensures Finalize(cfg, old(store.objects), bucket, key).Err? ==>
              r == Err(Finalize(cfg, old(store.objects), bucket, key).error) && store.objects == old(store.objects)
  {
    if !StartsWith(key, cfg.rawPrefix) || !EndsWith(key, ".json") {
      return Ok(());
    }
    var parts := Split(key, '/');
    if |parts| < 3 {
      return Ok(());
    }
    var base := parts[1];
    var src := ObjectId(bucket, key);
    var got := store.Get(src);
    if got.Err? {
      return Err(NoSuchObject(src));
    }
    if !got.value.Json? {
      return Err(NotATranscript(src));
    }
    var doc := got.value.doc;
    var text := ExtractText(doc);
    if text.None? {
      return Err(NoTranscripts(src));
    }
    var lang := Language(doc);
    var finalKey := FinalKey(cfg, base, lang);
    store.Put(ObjectId(cfg.resultBucket, finalKey), Text(text.value));
    if cfg.deleteJson {
      store.Delete(src);
    }
    return Ok(());
  }

  // ---------------------------------------------------------------------
  // The handler

  /** Where a run of `finalize_object` calls got to: the objects, and the
      failure that stopped it, if any. */
  datatype Run = Run(objects: map<ObjectId, Content>, failure: Option<FinalizeError>)

  /** One call on a record: the objects it leaves, or why it failed. */
  type Step = (map<ObjectId, Content>, Record) -> Result<map<ObjectId, Content>, FinalizeError>

  /** `step` applied to `recs` in order from `objects`, stopping at the
      first failure. */
  function Fold(step: Step, objects: map<ObjectId, Content>, recs: seq<Record>): Run
  {
    if recs == [] then Run(objects, None)
    else
      var run := Fold(step, objects, recs[..|recs| - 1]);
      if run.failure.Some? then run
      else match step(run.objects, recs[|recs| - 1])
        case Ok(after) => Run(after, None)
        case Err(e) => Run(run.objects, Some(e))
  }

  /** One record more: apply `step` to it if the run so far went through. */
  lemma {:induction false} FoldStep(step: Step, objects: map<ObjectId, Content>, recs: seq<Record>, rec: Record,
                                    mid: map<ObjectId, Content>)
    requires Fold(step, objects, recs) == Run(mid, None)
    ensures Fold(step, objects, recs + [rec]) ==
            match step(mid, rec)
            case Ok(after) => Run(after, None)
            case Err(e) => Run(mid, Some(e))
  {
    assert (recs + [rec])[..|recs|] == recs;
  }

  /** After a run that went through, the records of `b` carry on from
      where the records of `a` left the objects. */
  lemma {:induction false} FoldConcat(step: Step, objects: map<ObjectId, Content>, a: seq<Record>, b: seq<Record>)
    requires Fold(step, objects, a).failure.None?
    ensures Fold(step, objects, a + b) == Fold(step, Fold(step, objects, a).objects, b)
    decreases |b|
  {
    if b == [] {
      assert a + b == a;
    } else {
      var n := |b| - 1;
      FoldConcat(step, objects, a, b[..n]);
      assert (a + b)[..|a| + n] == a + b[..n];
      assert (a + b)[|a| + n] == b[n];
    }
  }

  /** Once a run has failed, later records change nothing. */
  lemma {:induction false} FoldFailed(step: Step, objects: map<ObjectId, Content>, a: seq<Record>, b: seq<Record>)
    requires Fold(step, objects, a).failure.Some?
    requires a <= b
    ensures Fold(step, objects, b) == Fold(step, objects, a)
    decreases |b|
  {
    if |b| > |a| {
      FoldFailed(step, objects, a, b[..|b| - 1]);
    } else {
      assert a == b;
    }
  }

  /** `finalize_object` on the bucket and key of a record. */
  function Finalizing(cfg: Config): Step {
    (objects: map<ObjectId, Content>, rec: Record) => Finalize(cfg, objects, rec.bucket, rec.key)
  }

  /** Finalizing `recs` in order, stopping at the first failure. */
  function FinalizeAll(cfg: Config, objects: map<ObjectId, Content>, recs: seq<Record>): Run {
    Fold(Finalizing(cfg), objects, recs)
  }

  /** An object outside the text location (another bucket, or a key
      outside `FINAL_PREFIX`) that is not a `.json` document is never
      touched by the handler. */
  lemma {:induction false} FinalizeAllFrame(cfg: Config, objects: map<ObjectId, Content>, recs: seq<Record>, id: ObjectId)
    requires id.bucket != cfg.resultBucket || !StartsWith(id.key, cfg.finalPrefix)
    requires !EndsWith(id.key, ".json")
    ensures var after := FinalizeAll(cfg, objects, recs).objects;
            (id in after <==> id in objects) && (id in after ==> after[id] == objects[id])
    decreases |recs|
  {
    if recs != [] {
      var n := |recs| - 1;
      FinalizeAllFrame(cfg, objects, recs[..n], id);
      var run := FinalizeAll(cfg, objects, recs[..n]);
      var rec := recs[n];
      if run.failure.None? {
        var base := AcceptedBase(cfg, rec.key);
        if base.Some? && Finalize(cfg, run.objects, rec.bucket, rec.key).Ok? {
          FinalizeEffect(cfg, run.objects, rec.bucket, rec.key, base.value);
          var doc := run.objects[ObjectId(rec.bucket, rec.key)].doc;
          var k := FinalKey(cfg, base.value, Language(doc));
          if id.bucket == cfg.resultBucket && id.key == k {
            FinalKeyShape(cfg, base.value, Language(doc));
            assert StartsWith(id.key, cfg.finalPrefix);
          }
        }
      }
    }
  }

  /** The inner loop of `handler`: finalize the S3 records of one message
      in order, stopping at the first failure. */
  method FinalizeRecords(store: Store, cfg: Config, recs: seq<Record>) returns (r: Result<(), FinalizeError>)
    modifies store
    ensures var run := FinalizeAll(cfg, old(store.objects), S3Records(recs));
            store.objects == run.objects && (r.Err? <==> run.failure.Some?) &&
            (r.Err? ==> r.error == run.failure.value)
  {
    var j := 0;
    while j < |recs|
      invariant 0 <= j <= |recs|
      invariant FinalizeAll(cfg, old(store.objects), S3Records(recs[..j])) == Run(store.objects, None)
    {
      var rec := recs[j];
      S3RecordsStep(recs, j);
      if IsS3(rec) {
        FoldStep(Finalizing(cfg), old(store.objects), S3Records(recs[..j]), rec, store.objects);
        r := FinalizeObject(store, cfg, rec.bucket, rec.key);
        if r.Err? {
          S3RecordsPrefix(recs, j + 1);
          FoldFailed(Finalizing(cfg), old(store.objects), S3Records(recs[..j + 1]), S3Records(recs));
          return;
        }
      } else {
        assert S3Records(recs[..j]) + [] == S3Records(recs[..j]);
      }
      j := j + 1;
    }
    assert recs[..j] == recs;
    return Ok(());
  }

  /** `handler`: finalize every S3 record of every message, in order; the
      first failure propagates and ends the invocation. */
  method Handler(store: Store, cfg: Config, event: Event) returns (r: Result<(), FinalizeError>)
    modifies store
    ensures var run := FinalizeAll(cfg, old(store.objects), SelectedOf(event));
            store.objects == run.objects && (r.Err? <==> run.failure.Some?) &&
            (r.Err? ==> r.error == run.failure.value)
  {
    var msgs := Messages(event);
    var i := 0;
    while i < |msgs|
      invariant 0 <= i <= |msgs|
      invariant FinalizeAll(cfg, old(store.objects), Selected(msgs[..i])) == Run(store.objects, None)
    {
      FoldConcat(Finalizing(cfg), old(store.objects), Selected(msgs[..i]), S3Records(RecordsOf(msgs[i])));
      r := FinalizeRecords(store, cfg, RecordsOf(msgs[i]));
      SelectedStep(msgs, i);
      if r.Err? {
        SelectedPrefix(msgs, i + 1);
        FoldFailed(Finalizing(cfg), old(store.objects), Selected(msgs[..i + 1]), Selected(msgs));
        return;
      }
      i := i + 1;
    }
    assert msgs[..i] == msgs;
    return Ok(());
  }
}
