/** The notification envelope all three handlers receive: a queue event
    whose messages each carry, as their parsed body, an S3 event with a
    list of storage-change records. Every handler walks the messages in
    order, and the records of each message in order, and acts on a record
    only when its `eventSource` is `"aws:s3"`. */
module Events {
  import opened Wrappers

  /** One storage-change record; `key` is the object key after URL
      decoding. */
  datatype Record = Record(eventSource: Option<string>, bucket: string, key: string)

  /** The parsed body of one queue message: its `Records` entry, if any. */
  datatype Body = Body(records: Option<seq<Record>>)

  /** The handler's event: its `Records` entry (the queue messages), if any. */
  datatype Event = Event(messages: Option<seq<Body>>)

  /** `event.get('Records', [])` */
  function Messages(event: Event): seq<Body> {
    event.messages.GetOr([])
  }

  /** `body.get('Records', [])` */
  function RecordsOf(body: Body): seq<Record> {
    body.records.GetOr([])
  }

  predicate IsS3(r: Record) {
    r.eventSource == Some("aws:s3")
  }

  /** The records of one message that a handler acts on, in their order. */
  function S3Records(recs: seq<Record>): (sel: seq<Record>)
    ensures |sel| <= |recs|
  {
    if recs == [] then []
    else
      var last := recs[|recs| - 1];
      S3Records(recs[..|recs| - 1]) + (if IsS3(last) then [last] else [])
  }

  /** The records a handler acts on, message after message. */
  function Selected(msgs: seq<Body>): (sel: seq<Record>)
  {
    if msgs == [] then []
    else Selected(msgs[..|msgs| - 1]) + S3Records(RecordsOf(msgs[|msgs| - 1]))
  }

  function SelectedOf(event: Event): seq<Record> {
    Selected(Messages(event))
  }

  /** Whatever a prefix of a message's records selects is a prefix of what
      the whole message selects. */
  lemma {:induction false} S3RecordsPrefix(recs: seq<Record>, j: nat)
    requires j <= |recs|
    ensures S3Records(recs[..j]) <= S3Records(recs)
    decreases |recs|
  {
    if j < |recs| {
      var init := recs[..|recs| - 1];
      assert recs[..j] == init[..j];
      S3RecordsPrefix(init, j);
    } else {
      assert recs[..j] == recs;
    }
  }

  /** Whatever a prefix of the messages selects is a prefix of what all of
      them select. */
  lemma {:induction false} SelectedPrefix(msgs: seq<Body>, i: nat)
    requires i <= |msgs|
    ensures Selected(msgs[..i]) <= Selected(msgs)
    decreases |msgs|
  {
    if i < |msgs| {
      var init := msgs[..|msgs| - 1];
      assert msgs[..i] == init[..i];
      SelectedPrefix(init, i);
    } else {
      assert msgs[..i] == msgs;
    }
  }

  /** The records selected from the first `i` messages and the first `t`
      records message `i` selects are a prefix of everything selected: the
      position a handler that stops part-way through message `i` reached. */
  lemma {:induction false} ProgressIsPrefix(msgs: seq<Body>, i: nat, t: nat)
    requires i < |msgs| && t <= |S3Records(RecordsOf(msgs[i]))|
    ensures Selected(msgs[..i]) + S3Records(RecordsOf(msgs[i]))[..t] <= Selected(msgs)
  {
    var sel := S3Records(RecordsOf(msgs[i]));
    assert msgs[..i + 1][..i] == msgs[..i];
    assert Selected(msgs[..i + 1]) == Selected(msgs[..i]) + sel;
    SelectedPrefix(msgs, i + 1);
  }

  /** A message selects exactly its records that come from S3. */
  lemma {:induction false} S3RecordsMembers(recs: seq<Record>, r: Record)
    ensures r in S3Records(recs) <==> r in recs && IsS3(r)
    decreases |recs|
  {
    if recs != [] {
      var init := recs[..|recs| - 1];
      S3RecordsMembers(init, r);
      assert recs == init + [recs[|recs| - 1]];
    }
  }

  /** `r` is one of the records of message `i`. */
  predicate InMessage(msgs: seq<Body>, i: int, r: Record) {
    0 <= i < |msgs| && r in RecordsOf(msgs[i])
  }

  /** Every record a handler acts on comes from S3 and from one of the
      messages, and every S3 record of every message is acted on. */
  lemma {:induction false} SelectedMembers(msgs: seq<Body>, r: Record)
    ensures r in Selected(msgs) <==> IsS3(r) && exists i :: InMessage(msgs, i, r)
    decreases |msgs|
  {
    if msgs != [] {
      var n := |msgs| - 1;
      var init := msgs[..n];
      var last := S3Records(RecordsOf(msgs[n]));
      assert Selected(msgs) == Selected(init) + last;
      SelectedMembers(init, r);
      S3RecordsMembers(RecordsOf(msgs[n]), r);
      if r in Selected(msgs) {
        if r in last {
          assert InMessage(msgs, n, r);
        } else {
          var i :| InMessage(init, i, r);
          assert InMessage(msgs, i, r);
        }
      }
      if IsS3(r) && exists i :: InMessage(msgs, i, r) {
        var i :| InMessage(msgs, i, r);
        if i < n {
          assert InMessage(init, i, r);
        }
      }
    }
  }

  /** One more record of message `i` extends the selection by that record
      exactly when it comes from S3. */
  lemma {:induction false} S3RecordsStep(recs: seq<Record>, j: nat)
    requires j < |recs|
    ensures S3Records(recs[..j + 1]) ==
            S3Records(recs[..j]) + (if IsS3(recs[j]) then [recs[j]] else [])
  {
    assert recs[..j + 1][..j] == recs[..j];
  }

  /** Finishing message `i` moves the selection on to message `i + 1`. */
  lemma {:induction false} SelectedStep(msgs: seq<Body>, i: nat)
    requires i < |msgs|
    ensures Selected(msgs[..i + 1]) == Selected(msgs[..i]) + S3Records(RecordsOf(msgs[i]))
  {
    assert msgs[..i + 1][..i] == msgs[..i];
  }
}
