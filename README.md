# Media-to-text pipeline: a Dafny model

The pipeline turns uploaded media into plain-text transcripts in three
stages that never talk to each other directly. Every stage is a queue
handler. Each queue message carries a storage notification, and the state
the stages share lives only in object key names.

- **Converter** (`convert_on_upload`): for every uploaded object, it derives
  the base name, picks the first output key in `<base>.mp3`,
  `<base>-v2.mp3`, `<base>-v3.mp3`, … that the output bucket does not hold
  yet, and writes the MP3 transcoding there.
- **Dispatcher** (`start_transcribe_on_audio`): for every new MP3, it reads a
  language from a `-fr`/`_en`/`.eng`-style suffix of the base name. It then
  names a transcription job after the base name, a timestamp and a random
  hex tag, and asks Transcribe to write the result under
  `RAW_PREFIX + base + "/"`. With a suffix the request carries
  `LanguageCode`; without one it asks for identification among
  `LANG_OPTIONS`.
- **Finalizer** (`finalize_to_text`): for every result document
  `raw/<base>/<job>.json`, it takes the base name from segment 1 of the key
  and extracts the first transcript. It writes the transcript to
  `FINAL_PREFIX + base + ".txt"` when the base name carries a language
  suffix, and to `FINAL_PREFIX + base + "-" + lang + ".txt"` otherwise
  (`lang` is the detected language, or `und`). Unless `DELETE_JSON` is off,
  it then deletes the document.

Modules:

- `Wrappers`: `Option` and `Result`.
- `PyStr`, `PyPath`: the Python string and path operations the handlers
  rely on, with Python's semantics.
  - `strip()` uses the full `str.isspace` set.
  - `split`, `join`, `rfind` and `lower` on ASCII letters are included.
  - `str(n)`, the zero-padded digits `strftime` prints, `os.path.basename`
    and `os.path.splitext` are included. For `splitext`, a name made only
    of dots has no extension.
- `Events`: the queue event, its messages and their storage records, and
  the records a handler acts on (`eventSource == "aws:s3"`, in message
  order and then record order).
- `S3`: object identities, the transcription-result document schema, and a
  `Store` class whose `objects` map the handlers read and update in place.
  - `head_object` is modelled by `HeadOf`. A probe either finds the object
    or raises a `ClientError` with a code.
  - `headFaults` holds the error codes other than "not found" that a probe
    may raise for particular objects.
- `Converter`, `Dispatcher`, `Finalizer`: the three stages. Their loops are
  methods proved against specification functions: `Candidate` and
  `Allocation` for the allocator, `Convert` and its fold `ConvertAll`
  for the Converter's handler, `Requests`/`Calls` for the Dispatcher's handler, and
  `FinalizeAll` for the Finalizer's handler.
- `Pipeline`: properties that span stages.
  - The two copies of the language pattern agree.
  - A job's result key gives back the base name it was filed under.
  - The language is settled once, by the Dispatcher or by detection.
  - Versioned MP3 names lose their language tag.

Time and randomness are parameters. The Dispatcher's handler takes
`clock` and `uuids` functions, and its `k`-th submission reads their `k`-th
values.

Three behaviours of the code are modelled as written:

- Missing transcript fields yield an empty text, but a present and empty
  `transcripts` list raises on its `[0]` index (`Finalizer.ExtractText`
  returns `None`, and `Finalize` fails with `NoTranscripts`).
- With `DELETE_JSON` on, a redelivered notification for a document already
  finalized fails on the deleted document (`Finalizer.FinalizeRerunDeleted`).
  Only with it off does a rerun leave the store as it was
  (`Finalizer.FinalizeRerun`).
- The Dispatcher requires `RESULT_BUCKET` (a missing one fails at import),
  while the Finalizer defaults it to `media-transcripts-caleb`.

## Model

| member | source | states |
|---|---|---|
| Events.S3RecordsMembers | src/convert_on_upload/app.py:56-57 | a message's handled records are exactly its records whose `eventSource` is `aws:s3` |
| Events.SelectedMembers | src/finalize_to_text/app.py:46-50 | a record is handled iff it comes from S3 and belongs to some message of the event |
| Events.SelectedPrefix | src/start_transcribe_on_audio/app.py:45-48 | what the first `i` messages select is a prefix of what the event selects (message order is kept) |
| Events.ProgressIsPrefix | src/convert_on_upload/app.py:54-58 | a handler that stops part-way through message `i` has handled a prefix of the selected records |
| S3.HeadOf | src/convert_on_upload/app.py:16-20 | a found probe means the object exists, a not-found code means it does not, and without a fault the probe finds exactly the existing objects |
| S3.Store.Get | src/finalize_to_text/app.py:27 | `get_object` returns the contents of an existing object and fails with the id for a missing one |
| S3.Store.Put | src/finalize_to_text/app.py:39-40 | `put_object` creates or replaces exactly one object |
| S3.Store.Delete | src/finalize_to_text/app.py:43 | `delete_object` removes exactly one object |
| PyStr.Strip | src/start_transcribe_on_audio/app.py:12 | `strip()` returns a slice of the input with only whitespace before and after it and no whitespace at either of its ends; empty when the input is all whitespace |
| PyStr.StripIdempotent | src/finalize_to_text/app.py:13 | stripping twice is stripping once |
| PyStr.StripKeepsTail | src/start_transcribe_on_audio/app.py:12 | a trailing suffix of non-whitespace characters survives `strip()` |
| PyStr.Split | src/finalize_to_text/app.py:22 | `split('/')` returns at least one piece and no piece holds the separator |
| PyStr.SplitCount | src/finalize_to_text/app.py:22-23 | `split` returns one piece more than the string has separators |
| PyStr.JoinSplit | src/start_transcribe_on_audio/app.py:9 | joining the pieces of `split` gives back the string |
| PyStr.SplitJoin | src/start_transcribe_on_audio/app.py:9 | splitting a join of separator-free pieces gives back the pieces |
| PyStr.SplitAfterPiece | src/finalize_to_text/app.py:22-26 | a separator-free piece followed by the separator is the first piece of the split |
| PyStr.RFind | src/convert_on_upload/app.py:33 | `rfind` returns the last index holding the character, or -1 when none does |
| PyStr.DecimalDigits | src/convert_on_upload/app.py:14 | `str(n)` consists of decimal digits |
| PyStr.DecimalInjective | src/convert_on_upload/app.py:14 | different version numbers render differently |
| PyStr.DigitsAreDigits | src/start_transcribe_on_audio/app.py:20 | the zero-padded fields of the timestamp are decimal digits |
| PyPath.Basename | src/convert_on_upload/app.py:33 | `basename` is the suffix of the key after its last `/`, without any `/` |
| PyPath.SplitExt | src/convert_on_upload/app.py:11 | `splitext` cuts the path into a root and an extension that concatenate back to it |
| PyPath.SplitExtShape | src/convert_on_upload/app.py:11 | the extension is empty or a `.` followed by neither `/` nor `.` |
| PyPath.SplitExtAppend | src/convert_on_upload/app.py:33-34 | a name with a non-dot character, followed by an extension, splits back into the two |
| PyPath.SplitExtDotsOnly | src/convert_on_upload/app.py:33-34 | a name made only of dots takes no extension (`..mp3` is its own root) |
| PyPath.BaseName | src/start_transcribe_on_audio/app.py:24 | the base name has no `/` |
| Converter.ConfigFromEnv | src/convert_on_upload/app.py:7-8 | the configuration exists iff `OUTPUT_BUCKET` is set, and then uses its value; `FFMPEG_PATH` is used when set and defaults to `/opt/bin/ffmpeg` |
| Converter.DesiredKeyShape | src/convert_on_upload/app.py:33-34 | the desired output key has no directory part and ends in `.mp3` |
| Converter.DesiredKeySplits | src/convert_on_upload/app.py:33-34 | unless the base name is all dots, the desired key splits into the base name and `.mp3` |
| Converter.CandidateShape | src/convert_on_upload/app.py:14 | a versioned candidate starts with `<root>-v`, ends with the extension and is longer than the desired key |
| Converter.CandidateParts | src/convert_on_upload/app.py:14 | a versioned candidate is the root, `-v`, the decimal version and the extension |
| Converter.CandidatesDistinct | src/convert_on_upload/app.py:12-17 | no key is probed twice: the candidates are pairwise distinct |
| Converter.FirstUnfoundUnique | src/convert_on_upload/app.py:13-21 | there is exactly one first candidate whose probe does not find an object |
| Converter.ProbedCount | src/convert_on_upload/app.py:12-17 | the candidates before `n` are `n - 1` distinct objects |
| Converter.FoundBound | src/convert_on_upload/app.py:13-17 | with `k` objects stored, at most `k` probes can succeed, which bounds the loop |
| Converter.FirstUnfoundFrom | src/convert_on_upload/app.py:13-17 | probing on from a candidate, past candidates that are found, reaches the first candidate the probes do not find, within `|objects| + 1` probes |
| Converter.Allocation | src/convert_on_upload/app.py:10-22 | the first candidate whose probe does not find an object is returned iff that probe failed with `404`, `NoSuchKey` or `NotFound`, and no object then holds it; otherwise the probe's error code is raised |
| Converter.AllocationFreeDesired | src/convert_on_upload/app.py:14-21 | a desired key that no object holds and whose probe does not fault is returned unchanged |
| Converter.NextAvailableKey | src/convert_on_upload/app.py:10-22 | the probing loop returns or raises exactly what `Allocation` describes, and writes nothing |
| Converter.Convert | src/convert_on_upload/app.py:30-45 | a record converts iff the allocation succeeds and the upload exists; a probe failure is reported with its code and a missing upload with its id; on success the transcoding of the upload is added at the allocated key of `OUTPUT_BUCKET`, which no object held, and nothing else changes |
| Converter.HandleRecord | src/convert_on_upload/app.py:30-45 | returns the key and leaves the store that `Convert` gives, or returns its error and leaves the store unchanged |
| Converter.ConvertedContents | src/convert_on_upload/app.py:45 | after conversions, old objects are unchanged, every conversion sits at its key and nothing else is added |
| Converter.ConvertedStep | src/convert_on_upload/app.py:45 | one more conversion, of the next record, at a fresh key of the output bucket keeps `Converted` |
| Converter.AppliedConcat | src/convert_on_upload/app.py:54-58 | applying two batches of conversions in turn is applying them together |
| Converter.ConvertedCompose | src/convert_on_upload/app.py:54-58 | conversions of consecutive messages compose, with their keys fresh and distinct overall |
| Converter.FoldStep | src/convert_on_upload/app.py:56-58 | one more record is converted only if the run so far went through, and its key is appended to those written |
| Converter.FoldLength | src/convert_on_upload/app.py:54-58 | a run writes at most one key per record, and one for every record iff it goes through |
| Converter.FoldConcat | src/convert_on_upload/app.py:54-58 | after a run that went through, the next message's records carry on from the store it left, writing after its keys |
| Converter.FoldFailed | src/convert_on_upload/app.py:54-58 | once a record fails, later records change nothing |
| Converter.FoldAt | src/convert_on_upload/app.py:54-58 | the `k`-th key written is the one the step wrote for the `k`-th record, on the store the earlier records left |
| Converter.ConvertAllConverted | src/convert_on_upload/app.py:52-58 | a handler run goes through iff every record is converted, and leaves the old objects unchanged plus each converted record's transcoding at its own fresh key of the output bucket |
| Converter.ConvertAllNames | src/convert_on_upload/app.py:34-58 | the `k`-th key written is `<base>.mp3` or its first `-v<n>` variant that the probes do not find in the store as the earlier conversions left it, and the `k`-th upload existed |
| Converter.ConvertRecords | src/convert_on_upload/app.py:56-58 | one message's loop leaves the store as converting its S3 records in order does, stopping at the first failure, which it returns |
| Converter.Handler | src/convert_on_upload/app.py:52-58 | the handler leaves the store as converting the event's selected records in order does, and the first failure ends the run and is returned |
| Dispatcher.ConfigFromEnv | src/start_transcribe_on_audio/app.py:7-9 | the configuration exists iff `RESULT_BUCKET` is set, and then uses its value; a set `RAW_PREFIX` is used and defaults to `raw/`; a set `LANG_OPTIONS` is parsed and defaults to the four default languages |
| Dispatcher.StrippedEntries | src/start_transcribe_on_audio/app.py:9 | the kept entries are exactly the non-empty strips of the entries, each already stripped |
| Dispatcher.StrippedEntriesConcat | src/start_transcribe_on_audio/app.py:9 | the list is trimmed entry by entry, keeping their order |
| Dispatcher.ParseLangOptions | src/start_transcribe_on_audio/app.py:9 | the options are exactly the non-empty strips of the comma-separated pieces, each non-empty, comma-free and stripped |
| Dispatcher.ParseJoin | src/start_transcribe_on_audio/app.py:9 | clean entries written out with commas parse back to the same list in the same order |
| Dispatcher.DefaultLangOptionsParse | src/start_transcribe_on_audio/app.py:9 | the default `en-US,en-GB,fr-FR,fr-CA` parses to those four languages |
| Dispatcher.SuffixToken | src/start_transcribe_on_audio/app.py:12 | a token is found only if the string ends with a separator and that token, and none is found iff no token matches |
| Dispatcher.LangFromName | src/start_transcribe_on_audio/app.py:11-16 | the only codes returned are `fr-FR` and `en-US` |
| Dispatcher.LangFromNameCodes | src/start_transcribe_on_audio/app.py:11-16 | the stripped name gets `fr-FR` iff it ends in an `fr` tag, `en-US` iff it ends in an `en` or `eng` tag, and no code iff it ends in no tag |
| Dispatcher.SuffixTokenCodes | src/start_transcribe_on_audio/app.py:12-16 | the token found is `fr` iff the name ends in an `fr` tag, and another token iff it ends in an `en` or `eng` tag |
| Dispatcher.LangFromNameTagged | src/start_transcribe_on_audio/app.py:12-16 | any stem, then `-`, `_` or `.`, then `fr`, `en` or `eng` in any letter case, gets the matching language |
| Dispatcher.LangFromNameUntagged | src/start_transcribe_on_audio/app.py:12-14 | a name ending in a character that lower-cases to none of `r`, `n`, `g` and is not whitespace gets no language |
| Dispatcher.Sanitize | src/start_transcribe_on_audio/app.py:19 | the job-name prefix is at most 100 characters and does not start with `-` |
| Dispatcher.SanitizeChars | src/start_transcribe_on_audio/app.py:19 | the prefix holds only characters of `[A-Za-z0-9_-]` |
| Dispatcher.SubstituteRun | src/start_transcribe_on_audio/app.py:19 | each maximal run of disallowed characters becomes a single `-` |
| Dispatcher.SubstituteAllowed | src/start_transcribe_on_audio/app.py:19 | a string of allowed characters is left alone by the substitution |
| Dispatcher.SanitizeFixpoint | src/start_transcribe_on_audio/app.py:19 | a base of allowed characters without a leading or trailing `-` and at most 100 long is kept unchanged |
| Dispatcher.SanitizeTruncationLeavesDash | src/start_transcribe_on_audio/app.py:19 | sanitizing is not idempotent in general: cutting at 100 characters can leave a trailing `-` that a second pass strips |
| Dispatcher.Timestamp | src/start_transcribe_on_audio/app.py:20 | the timestamp is 15 characters with a `-` at index 8 |
| Dispatcher.TimestampDigits | src/start_transcribe_on_audio/app.py:20 | apart from that `-`, the timestamp is digits |
| Dispatcher.JobName | src/start_transcribe_on_audio/app.py:20 | a job name is exactly 23 characters longer than its sanitized prefix |
| Dispatcher.JobNamePrefix | src/start_transcribe_on_audio/app.py:18-20 | a job name is at most 123 characters and starts with the sanitized base and `-` |
| Dispatcher.JobNameShape | src/start_transcribe_on_audio/app.py:18-20 | a job name also consists only of characters of `[A-Za-z0-9_-]` |
| Dispatcher.RequestLanguage | src/start_transcribe_on_audio/app.py:26-40 | the request has the six common parameters plus `LanguageCode` when a code is given, and otherwise `IdentifyLanguage = True` and `LanguageOptions` set to the configured list (one entry of the request read back; `RequestLanguageXor` and `JobRequestShape` state what it implies) |
| Dispatcher.RequestLanguageXor | src/start_transcribe_on_audio/app.py:35-40 | `LanguageCode` and `IdentifyLanguage` are never both present nor both absent, and the options travel with `IdentifyLanguage` |
| Dispatcher.RequestOutput | src/start_transcribe_on_audio/app.py:23-31 | results go to `RESULT_BUCKET` under `RAW_PREFIX + base + "/"`; the media is `s3://bucket/key` in MP3 (entries of the request read back; `Pipeline.TranscriptKeyRoundTrip` is what the output key is for) |
| Dispatcher.RequestNamed | src/start_transcribe_on_audio/app.py:27 | the request names the job and carries a code iff one is given (entries read back; the combined statement is `JobRequestShape`) |
| Dispatcher.JobRequestShape | src/start_transcribe_on_audio/app.py:22-40 | the submitted job is named after the object's base name within 123 characters, and carries `LanguageCode` iff the base name yields a language |
| Dispatcher.CallsAt | src/start_transcribe_on_audio/app.py:51-52 | the `k`-th call is for the `k`-th record and reads the clock and UUID generator the `(first + k)`-th time |
| Dispatcher.CallsConcat | src/start_transcribe_on_audio/app.py:45-52 | the calls of two runs of records are those of each run, the second reading the clock after the first |
| Dispatcher.EachConcat | src/start_transcribe_on_audio/app.py:45-52 | mapping over two runs is mapping over each |
| Dispatcher.RequestsAt | src/start_transcribe_on_audio/app.py:44-52 | the `k`-th submitted request is `start_job`'s for the `k`-th selected record at the `k`-th clock reading and UUID |
| Dispatcher.StartedIsEach | src/start_transcribe_on_audio/app.py:47-52 | filtering and starting record by record is starting the jobs of the selected records in order |
| Dispatcher.SubmitRecords | src/start_transcribe_on_audio/app.py:47-52 | one message's loop submits exactly one request per S3 record, in order, at consecutive clock readings |
| Dispatcher.Handler | src/start_transcribe_on_audio/app.py:44-52 | the handler submits exactly one request per selected record of the event, in order, each built by `start_job` with the next clock reading and UUID |
| Finalizer.ConfigFromEnv | src/finalize_to_text/app.py:7-10 | every set entry is used and every missing one defaults (`media-transcripts-caleb`, `raw/`, `final/`, deletion on); a set `DELETE_JSON` keeps deletion on iff it lower-cases to `true`, so any length other than 4 turns it off |
| Finalizer.DeleteJsonAnyCase | src/finalize_to_text/app.py:10 | `true` in any letter case keeps deletion on |
| Finalizer.HadLangSuffixCases | src/finalize_to_text/app.py:12-13 | a base ending in `-`, `_` or `.` followed by `fr`, `en` or `eng` in any letter case, whatever precedes and surrounding whitespace, has a language suffix |
| Finalizer.HadLangSuffixUntagged | src/finalize_to_text/app.py:12-13 | a base ending in a non-whitespace character that lower-cases to none of `r`, `n`, `g` has no language suffix |
| Finalizer.ExtractText | src/finalize_to_text/app.py:15-16 | extraction fails exactly when `transcripts` is present but empty |
| Finalizer.ExtractTextMissing | src/finalize_to_text/app.py:16 | a document without `results` or without `transcripts` yields `""` |
| Finalizer.ExtractTextFirst | src/finalize_to_text/app.py:16 | the first entry's `transcript` is the text, whatever follows it, and `""` when the entry lacks it |
| Finalizer.Language | src/finalize_to_text/app.py:32 | the language is `results.language_code`, or `und` when it or `results` is absent |
| Finalizer.AcceptedBaseShape | src/finalize_to_text/app.py:20-26 | an accepted key starts with `RAW_PREFIX` and ends in `.json`, and its base name has no `/` |
| Finalizer.AcceptedBaseSlashes | src/finalize_to_text/app.py:20-24 | a key is accepted iff it starts with `RAW_PREFIX`, ends in `.json` and has at least two `/` |
| Finalizer.AcceptedBaseSegment | src/finalize_to_text/app.py:22-26 | the base name is exactly what lies between the first and the second `/` |
| Finalizer.FinalKeyShape | src/finalize_to_text/app.py:34-37 | the final key is `FINAL_PREFIX + base`, then `.txt` directly iff the base has a language suffix, else `-<lang>.txt` with the given language |
| Finalizer.FinalKeyInjective | src/finalize_to_text/app.py:34-37 | bases that agree on having a suffix and are finalized in one language get different keys when they differ |
| Finalizer.FinalKeyTaggedMeetsDetected | src/finalize_to_text/app.py:34-37 | a tagged base `x-fr-FR` (its tag is `-FR`) in any detected language and an untagged `x` detected as `fr-FR` both end up at `x-fr-FR.txt` |
| Finalizer.JsonIsNotText | src/finalize_to_text/app.py:20 | a `.json` key is never a `.txt` key |
| Finalizer.FinalKeySkipped | src/finalize_to_text/app.py:20-21 | a final text's key is always skipped by the key filter, so writing it never triggers another finalization |
| Finalizer.FinalizeSkips | src/finalize_to_text/app.py:20-24 | a key outside `RAW_PREFIX`, not ending in `.json` or with fewer than two `/` leaves the store as it was |
| Finalizer.FinalizeEffect | src/finalize_to_text/app.py:26-43 | on success the text goes to the final key in `RESULT_BUCKET`; the document stays, unchanged, iff `DELETE_JSON` is off; nothing else changes |
| Finalizer.FinalizeErrors | src/finalize_to_text/app.py:27-29 | an accepted key fails on a missing object, on one that is not a result document, or on an empty `transcripts`, and on nothing else |
| Finalizer.FinalizeRerun | src/finalize_to_text/app.py:39-43 | with `DELETE_JSON` off, finalizing the same key again changes nothing |
| Finalizer.FinalizeRerunDeleted | src/finalize_to_text/app.py:42-43 | with `DELETE_JSON` on, a second delivery fails on the deleted document and changes nothing |
| Finalizer.FinalizeObject | src/finalize_to_text/app.py:18-43 | the store afterwards is what `Finalize` describes, and a failure leaves it unchanged |
| Finalizer.FoldStep | src/finalize_to_text/app.py:48-53 | one more record is finalized only if the run so far went through |
| Finalizer.FoldConcat | src/finalize_to_text/app.py:46-53 | after a run that went through, the next message's records carry on from where it left the store |
| Finalizer.FoldFailed | src/finalize_to_text/app.py:46-53 | once a record fails, later records change nothing |
| Finalizer.FinalizeAllFrame | src/finalize_to_text/app.py:45-53 | objects outside the final-text location that are not `.json` documents are never touched by a handler run |
| Finalizer.FinalizeRecords | src/finalize_to_text/app.py:48-53 | one message's loop finalizes its S3 records in order and stops at the first failure, which it returns |
| Finalizer.Handler | src/finalize_to_text/app.py:45-53 | the handler finalizes the event's selected records in order, and the first failure ends the run and is returned |
| Pipeline.TagsAgree | src/finalize_to_text/app.py:13 | the Dispatcher's and the Finalizer's tests of the last two or three characters agree |
| Pipeline.LangAgreement | src/start_transcribe_on_audio/app.py:11-16 | `lang_from_name` finds a language iff `had_lang_suffix` (`finalize_to_text/app.py:12-13`) holds |
| Pipeline.ResultKeyBase | src/finalize_to_text/app.py:22-26 | under a one-segment raw prefix, a result key gives back the base name it was filed under |
| Pipeline.TranscriptKeyRoundTrip | src/start_transcribe_on_audio/app.py:31 | the result `OutputKey + job + ".json"` is accepted by the Finalizer with exactly the Dispatcher's base name, when both use one single-segment raw prefix |
| Pipeline.NestedPrefixMisreadsBase | src/finalize_to_text/app.py:26 | with a two-segment raw prefix, the Finalizer takes the prefix's second segment for the base name |
| Pipeline.LanguageDecidedOnce | src/start_transcribe_on_audio/app.py:35-40 | the Dispatcher sends a language code iff the Finalizer (`finalize_to_text/app.py:34-37`) names the text without appending the detected language |
| Pipeline.FirstCandidateKeepsBase | src/convert_on_upload/app.py:14 | an unversioned MP3 keeps the upload's base name, tag included |
| Pipeline.VersionedStem | src/convert_on_upload/app.py:14 | `<base>-v<n>` has no `/`, has a non-dot character and ends in a digit |
| Pipeline.VersionedCandidateName | src/convert_on_upload/app.py:14 | the base name of a versioned MP3 is the upload's base name followed by `-v<n>` |
| Pipeline.DigitEndUntagged | src/start_transcribe_on_audio/app.py:12-14 | a name ending in a digit has no language for either stage |
| Pipeline.VersionedCandidateUntagged | src/convert_on_upload/app.py:14 | a versioned MP3 (`talk-fr-v2.mp3`) loses its language tag, so it is transcribed with identification and finalized with the detected language appended |

## Left out

- Transcoding: the ffmpeg call, its command line and its failure (`run`, `convert_on_upload/app.py:24-28, 41-43`) are external. The model writes an abstract `Audio(source)` object, and `Converter.HandleRecord` cannot fail after the download.
- Temporary files and their cleanup (`convert_on_upload/app.py:36-37, 47-50`) are local I/O. The `ContentType` metadata of uploads and puts is not modelled.
- URL decoding: `unquote_plus` is a library call. Record keys are taken as already decoded.
- JSON parsing: message bodies and result documents are taken as already parsed. Malformed JSON, and documents that are not objects, are not modelled. A stored object that is not a result document (`Media`, `Audio`, `Text`) is reported as `NotATranscript`, even when a text would happen to parse as JSON.
- Missing record fields: `rec['s3']['bucket']['name']` and `msg['body']` are assumed present. The `KeyError` a malformed notification raises is not modelled.
- Service failures other than the ones modelled (a probe's error code, a missing object on read) are not modelled: credentials, throttling on reads and writes, and a failing `start_transcription_job`. The Dispatcher's handler therefore always submits every request.
- The transcription service itself: speech recognition is external, and the result is assumed to be written under `OutputKey + job name + ".json"`, the naming the round-trip lemma relies on.
- Clock and randomness: `time.strftime` and `uuid.uuid4().hex` are parameters (`clock`, `uuids`, indexed by call). Local time is any valid date and time with a four-digit year.
- Concurrency: the check-then-act race between concurrent allocators for the same desired key is out of scope. Every handler invocation is modelled as running alone on the store.
- Regular expressions: both language patterns and the job-name substitution are explicit string functions, not a regex engine. `(?i)` and `.lower()` are modelled on ASCII letters. No character outside ASCII lower-cases or case-folds to one of `f`, `r`, `e`, `n`, `g`, `t`, `u`, so this is exact for every comparison made here.
- Dispatcher.LangFromName: its own contract names only the two possible codes; the full mapping is `Dispatcher.LangFromNameCodes`.
