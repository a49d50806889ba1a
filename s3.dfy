/** The object store the stages share, seen through the calls the handlers
    make on it: `head_object` (the existence probe), `get_object`,
    `put_object`/`upload_file` and `delete_object`. Objects are identified
    by bucket and key; their contents are kept abstract except for the
    transcription result documents the Finalizer reads. */
module S3 {
  import opened Wrappers

  datatype ObjectId = ObjectId(bucket: string, key: string)

  /** One entry of `results.transcripts` in a transcription result. */
  datatype TranscriptEntry = TranscriptEntry(transcript: Option<string>)

  /** The `results` object of a transcription result. */
  datatype Results = Results(transcripts: Option<seq<TranscriptEntry>>, languageCode: Option<string>)

  /** A transcription result document as `json.loads` returns it. */
  datatype TranscriptDoc = TranscriptDoc(results: Option<Results>)

  datatype Content =
    | Media(bytes: seq<bv8>)     // an uploaded media file
    | Audio(source: ObjectId)    // the MP3 transcoding of the media object `source`
    | Json(doc: TranscriptDoc)   // a transcription result document
    | Text(body: string)         // a final transcript (UTF-8 plain text)

  /** What `head_object` does: return (the object exists) or raise a
      `ClientError` carrying an error code, possibly none. */
  datatype HeadOutcome = Found | ClientError(code: Option<string>)

  /** The error codes the allocator reads as "no such object". */
  predicate IsNotFoundCode(code: Option<string>) {
    code == Some("404") || code == Some("NoSuchKey") || code == Some("NotFound")
  }

  /** Probe failures other than "not found" (access denied, throttling,
      ...) that `head_object` raises for particular objects, whether they
      exist or not. */
  type ProbeFaults = f: map<ObjectId, Option<string>> | forall id :: id in f ==> !IsNotFoundCode(f[id])

  /** `head_object` on a store holding `objects`: a fault wins; otherwise
      the object is found or the call fails with S3's code `404`. */
  function HeadOf(objects: map<ObjectId, Content>, faults: ProbeFaults, id: ObjectId): (h: HeadOutcome)
    ensures h == Found ==> id in objects
    ensures h.ClientError? && IsNotFoundCode(h.code) ==> id !in objects
    ensures id !in faults ==> (h == Found <==> id in objects)
  {
    if id in faults then ClientError(faults[id])
    else if id in objects then Found
    else ClientError(Some("404"))
  }

  class Store {
    var objects: map<ObjectId, Content>
    const headFaults: ProbeFaults

    constructor (objects: map<ObjectId, Content>, headFaults: ProbeFaults)
      ensures this.objects == objects && this.headFaults == headFaults
    {
      this.objects := objects;
      this.headFaults := headFaults;
    }

    /** `head_object(Bucket=id.bucket, Key=id.key)` */
    function Head(id: ObjectId): HeadOutcome
      reads this
    {
      HeadOf(objects, headFaults, id)
    }

    /** `get_object`: the contents, or `NoSuchKey` for a missing object. */
    method Get(id: ObjectId) returns (r: Result<Content, ObjectId>)
      ensures id in objects ==> r == Ok(objects[id])
      ensures id !in objects ==> r == Err(id)
    {
      if id in objects {
        r := Ok(objects[id]);
      } else {
        r := Err(id);
      }
    }

    /** `put_object`/`upload_file`: create or replace one object. */
    method Put(id: ObjectId, c: Content)
      modifies this
      ensures objects == old(objects)[id := c]
    {
      objects := objects[id := c];
    }

    /** `delete_object`: remove one object (a missing one is no error). */
    method Delete(id: ObjectId)
      modifies this
      ensures objects == old(objects) - {id}
    {
      objects := objects - {id};
    }
  }
}
