/** How the three stages meet: the Converter writes the MP3 that the
    Dispatcher names a transcription job after; Transcribe writes the job's
    result under the request's `OutputKey`; the Finalizer reads the base
    name back from that key and decides, as the Dispatcher did, whether the
    name already carries the language. */
module Pipeline {
  import opened Wrappers
  import opened PyStr
  import opened PyPath
  import Converter
  import Dispatcher
  import Finalizer

  // ---------------------------------------------------------------------
  // The two readings of the language suffix

  lemma {:induction false} LowerPair(w: string)
    requires |w| == 2
    ensures Lower(w) == [LowerChar(w[0]), LowerChar(w[1])]
  {
  }

  lemma {:induction false} LowerTriple(w: string)
    requires |w| == 3
    ensures Lower(w) == [LowerChar(w[0]), LowerChar(w[1]), LowerChar(w[2])]
  {
  }

  /** The Dispatcher's and the Finalizer's tests of the last characters
      agree: `fr` or `en` is a two-letter tag, `eng` a three-letter one. */
  lemma {:induction false} TagsAgree(t: string)
    ensures Dispatcher.EndsWithTag(t, "fr") || Dispatcher.EndsWithTag(t, "en") <==> Finalizer.TaggedLast(t, 2)
    ensures Dispatcher.EndsWithTag(t, "eng") <==> Finalizer.TaggedLast(t, 3)
  {
    if |t| > 2 {
      LowerPair(t[|t| - 2..]);
    }
    if |t| > 3 {
      LowerTriple(t[|t| - 3..]);
    }
  }

  /** `lang_from_name` finds a language exactly when `had_lang_suffix`
      holds: both stages read the same base names as tagged. */
  lemma {:induction false} LangAgreement(base: string)
    ensures Dispatcher.LangFromName(base).Some? <==> Finalizer.HadLangSuffix(base)
  {
    TagsAgree(Strip(base, Whitespace));
  }

  // ---------------------------------------------------------------------
  // From the transcription request to the final text

  /** Under a raw prefix of one path segment, the key of any result file
      of a job gives back the base name it was filed under. */
  lemma {:induction false} ResultKeyBase(fcfg: Finalizer.Config, p: string, base: string, name: string)
    requires '/' !in p && '/' !in base && fcfg.rawPrefix == p + "/"
    ensures Finalizer.AcceptedBase(fcfg, fcfg.rawPrefix + base + "/" + name + ".json") == Some(base)
  {
    var rest := name + ".json";
    var k := p + "/" + base + "/" + rest;
    assert fcfg.rawPrefix + base + "/" + name + ".json" == k;
    assert StartsWith(k, fcfg.rawPrefix) by {
      assert k[..|p| + 1] == p + "/";
    }
    assert EndsWith(k, ".json") by {
      assert k[|k| - 5..] == ".json";
    }
    Finalizer.AcceptedBaseSegment(fcfg, p, base, rest);
  }

  /** Transcribe writes the result of a job under the request's
      `OutputKey` followed by the job name and `.json`. When the raw prefix
      is one path segment (like the default `raw/`) and both stages use the
      same one, the Finalizer reads back exactly the base name the
      Dispatcher started from. */
  lemma {:induction false} TranscriptKeyRoundTrip(dcfg: Dispatcher.Config, fcfg: Finalizer.Config, p: string,
                                                  bucket: string, key: string,
                                                  now: Dispatcher.LocalTime, id: Dispatcher.Uuid)
    requires '/' !in p && dcfg.rawPrefix == p + "/" && fcfg.rawPrefix == dcfg.rawPrefix
    ensures var r := Dispatcher.JobRequest(dcfg, bucket, key, now, id);
            Dispatcher.OutputKey in r && r[Dispatcher.OutputKey].Str? &&
            Dispatcher.TranscriptionJobName in r && r[Dispatcher.TranscriptionJobName].Str? &&
            Finalizer.AcceptedBase(fcfg, r[Dispatcher.OutputKey].s + r[Dispatcher.TranscriptionJobName].s + ".json")
              == Some(BaseName(key))
  {
    var base := BaseName(key);
    var name := Dispatcher.JobName(base, now, id);
    Dispatcher.RequestOutput(dcfg, bucket, key, name, Dispatcher.LangFromName(base));
    ResultKeyBase(fcfg, p, base, name);
  }

  /** With a raw prefix of two segments, the Finalizer takes the prefix's
      second segment for the base name. */
  lemma {:induction false} NestedPrefixMisreadsBase(fcfg: Finalizer.Config)
    requires fcfg.rawPrefix == "t/raw/"
    ensures Finalizer.AcceptedBase(fcfg, "t/raw/clip/clip-job.json") == Some("raw")
  {
    Finalizer.AcceptedBaseSegment(fcfg, "t", "raw", "clip/clip-job.json");
    assert "t" + "/" + "raw" + "/" + "clip/clip-job.json" == "t/raw/clip/clip-job.json";
  }

  /** The language is settled once: the Dispatcher sends a language code
      exactly when the Finalizer names the text without appending the
      detected language. */
  lemma {:induction false} LanguageDecidedOnce(dcfg: Dispatcher.Config, fcfg: Finalizer.Config, bucket: string, key: string,
                                               now: Dispatcher.LocalTime, id: Dispatcher.Uuid, lang: string)
    ensures var base := BaseName(key);
            Dispatcher.LanguageCode in Dispatcher.JobRequest(dcfg, bucket, key, now, id) <==>
            Finalizer.FinalKey(fcfg, base, lang) == fcfg.finalPrefix + base + ".txt"
  {
    var base := BaseName(key);
    Dispatcher.JobRequestShape(dcfg, bucket, key, now, id);
    LangAgreement(base);
    Finalizer.FinalKeyShape(fcfg, base, lang);
  }

  // ---------------------------------------------------------------------
  // From the upload to the transcription request

  /** When the desired key is free, the MP3 keeps the upload's base name,
      and with it any language tag. */
  lemma {:induction false} FirstCandidateKeepsBase(key: string)
    requires HasNonDot(BaseName(key))
    ensures BaseName(Converter.Candidate(Converter.DesiredKey(key), 1)) == BaseName(key)
  {
    Converter.DesiredKeyShape(key);
    BasenameOfName(Converter.DesiredKey(key));
    Converter.DesiredKeySplits(key);
  }

  /** A versioned stem `<base>-v<n>` has no `/`, has a character other
      than `.`, and ends in a digit. */
  lemma {:induction false} VersionedStem(base: string, n: nat)
    requires '/' !in base
    ensures var stem := base + "-v" + Decimal(n);
            '/' !in stem && HasNonDot(stem) && IsDigit(stem[|stem| - 1])
  {
    var digits := Decimal(n);
    var stem := base + "-v" + digits;
    DecimalDigits(n);
    assert stem[|stem| - 1] == digits[|digits| - 1];
    forall k | 0 <= k < |stem|
      ensures stem[k] != '/'
    {
      if k >= |base| + 2 {
        assert stem[k] == digits[k - |base| - 2];
      }
    }
    StripStartStops(stem, {'.'}, 0, |stem| - 1);
  }

  /** A versioned MP3 keeps the upload's base name followed by `-v<n>`. */
  lemma {:induction false} VersionedCandidateName(key: string, n: nat)
    requires n >= 2 && HasNonDot(BaseName(key))
    ensures BaseName(Converter.Candidate(Converter.DesiredKey(key), n)) == BaseName(key) + "-v" + Decimal(n)
  {
    var stem := BaseName(key) + "-v" + Decimal(n);
    Converter.DesiredKeySplits(key);
    assert Converter.Candidate(Converter.DesiredKey(key), n) == stem + ".mp3";
    VersionedStem(BaseName(key), n);
    SplitExtAppend(stem, ".mp3");
    BasenameOfName(stem + ".mp3");
  }

  /** A name ending in a digit carries no language for either stage. */
  lemma {:induction false} DigitEndUntagged(b: string)
    requires b != [] && IsDigit(b[|b| - 1])
    ensures Dispatcher.LangFromName(b) == None && !Finalizer.HadLangSuffix(b)
  {
    assert !IsSpace(b[|b| - 1]);
    Dispatcher.LangFromNameUntagged(b);
    Finalizer.HadLangSuffixUntagged(b);
  }

  /** A versioned MP3 (`talk-fr-v2.mp3` for the upload `talk-fr.wav`) ends
      its base name in a digit: its language tag is lost, so the Dispatcher
      asks for identification and the Finalizer appends the detected
      code. */
  lemma {:induction false} VersionedCandidateUntagged(key: string, n: nat)
    requires n >= 2 && HasNonDot(BaseName(key))
    ensures var b := BaseName(Converter.Candidate(Converter.DesiredKey(key), n));
            Dispatcher.LangFromName(b) == None && !Finalizer.HadLangSuffix(b)
  {
    VersionedCandidateName(key, n);
    VersionedStem(BaseName(key), n);
    DigitEndUntagged(BaseName(key) + "-v" + Decimal(n));
  }
}
