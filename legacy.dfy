/** The earlier handler, lambda.functions.py: it reads only the first record
    of the event, decodes the object as one JSON document, keeps the rows
    whose status is exactly "delivered", writes them (only when there are
    any) under a key with every "raw_input" renamed "processed", and
    publishes a plain-text success or failure notification. */
module Legacy {
  import opened Types
  import opened Text
  import opened Seqs
  import opened Services
  import App

  const RawInput: string := "raw_input"
  const ProcessedMarker: string := "processed"
  const SuccessSubject: string := "DoorDash Data Processing Success"
  const FailureSubject: string := "DoorDash Data Processing Failure"

  // ---------------------------------------------------------------------------
  // Target key

  /** `file_key.replace('raw_input', 'processed')`, with no fallback. */
  function TargetKey(key: string): string
  {
    ReplaceAll(key, RawInput, ProcessedMarker)
  }

  /** The target key has the length of the source key, and it differs from
      it exactly when the source key contains "raw_input". */
  lemma TargetKeyChangedIffMarker(key: string)
    ensures |TargetKey(key)| == |key|
    ensures TargetKey(key) != key <==> Contains(key, RawInput)
  {
    if Contains(key, RawInput) {
      ReplaceAllChanges(key, RawInput, ProcessedMarker);
    } else {
      ReplaceAllAbsent(key, RawInput, ProcessedMarker);
    }
  }

  /** "processed" cannot start or complete a "raw_input": it does not
      begin with it, and neither marker ends where the other begins. */
  lemma MarkersDoNotOverlap()
    ensures ProcessedMarker[..|RawInput|] != RawInput
    ensures NoSuffixOverlap(ProcessedMarker, RawInput)
    ensures NoSuffixOverlap(RawInput, ProcessedMarker)
  {
    assert ProcessedMarker[..|RawInput|][0] != RawInput[0];
    forall k | 0 < k < |ProcessedMarker|
      ensures Disagree(ProcessedMarker, RawInput, k)
    {
      if k == 1 {
        assert ProcessedMarker[k + 1] != RawInput[1];
      } else {
        assert ProcessedMarker[k + 0] != RawInput[0];
      }
    }
    forall k | 0 < k < |RawInput|
      ensures Disagree(RawInput, ProcessedMarker, k)
    {
      if k == 6 {
        assert RawInput[k + 1] != ProcessedMarker[1];
      } else {
        assert RawInput[k + 0] != ProcessedMarker[0];
      }
    }
  }

  /** No "raw_input" survives in the target key. */
  lemma TargetKeyNoneRemains(key: string)
    ensures !Contains(TargetKey(key), RawInput)
  {
    MarkersDoNotOverlap();
    ReplaceAllLeavesNone(key, RawInput, ProcessedMarker);
  }

  /** Two occurrences in text without an 'r' are both renamed in place. */
  lemma TargetKeyEveryOccurrence(a: string, b: string, c: string)
    requires forall k :: 0 <= k < |a| ==> a[k] != 'r'
    requires forall k :: 0 <= k < |b| ==> b[k] != 'r'
    requires forall k :: 0 <= k < |c| ==> c[k] != 'r'
    ensures TargetKey(a + RawInput + b + RawInput + c) == a + ProcessedMarker + b + ProcessedMarker + c
  {
    var tail := b + RawInput + c;
    assert a + RawInput + b + RawInput + c == a + RawInput + tail;
    ReplaceAllAfterFree(a, RawInput, ProcessedMarker, tail);
    ReplaceAllAfterFree(b, RawInput, ProcessedMarker, c);
    ReplaceAllFree(c, RawInput, ProcessedMarker);
  }

  // ---------------------------------------------------------------------------
  // Extraction of the first record

  /** `event['Records'][0]['s3']`, then its bucket name and object key. */
  function FirstLocation(event: Event): Result<Location, Error>
  {
    match event.records
    case None => Failure(KeyError("Records"))
    case Some(entries) =>
      if |entries| == 0 then Failure(IndexError)
      else
        match entries[0].bucketName
        case None => Failure(KeyError("name"))
        case Some(bucket) =>
          match entries[0].objectKey
          case None => Failure(KeyError("key"))
          case Some(key) => Success(Location(bucket, key))
  }

  // ---------------------------------------------------------------------------
  // The filter

  /** `data[data['status'] == 'delivered']`: rows whose status cell is
      exactly the string "delivered", unchanged. */
  function Delivered(records: seq<Record>): seq<Record>
  {
    Filter(HasDeliveredStatus, records)
  }

  /** The kept rows are the records whose status is exactly "delivered",
      each as it was, in their original order. */
  lemma DeliveredSelect(records: seq<Record>)
    ensures var out, idx := Delivered(records), Positions(HasDeliveredStatus, records);
      && |idx| == |out|
      && Increasing(idx)
      && (forall k :: 0 <= k < |idx| ==>
            idx[k] < |records| && out[k] == records[idx[k]]
            && "status" in out[k] && out[k]["status"] == VStr("delivered"))
      && (forall i :: 0 <= i < |records| && "status" in records[i] && records[i]["status"] == VStr("delivered") ==>
            i in idx)
  {
    FilterSelects(HasDeliveredStatus, records);
  }

  /** The comparison is case-sensitive: a row with status "Delivered" is kept
      by the current handler and dropped here. */
  lemma CaseSensitiveContrast(r: Record)
    requires r == map["status" := VStr("Delivered")]
    ensures App.Matches(r)
    ensures Delivered([r]) == []
  {
    App.StatusCaseInsensitive();
  }

  // ---------------------------------------------------------------------------
  // The try block

  /** Lines 26-33: fetch, decode one JSON document, select the column; the
      filtered rows, or the error raised. A missing column is `KeyError('status')`. */
  function Work(objects: map<Location, Bytes>, decoders: Decoders, loc: Location): Result<seq<Record>, Error>
  {
    match Fetch(objects, loc.bucket, loc.key)
    case Failure(e) => Failure(e)
    case Success(body) =>
      match decoders.document(body)
      case ValueError(message) => Failure(ParseError(message))
      case Parsed(table) =>
        if !HasColumn(table, "status") then Failure(KeyError("status"))
        else Success(Delivered(table.rows))
  }

  function SuccessPrefix(key: string): string
  {
    "Successfully processed " + key + ". Filtered records: "
  }

  /** The success message. */
  function SuccessText(key: string, count: nat): string
  {
    SuccessPrefix(key) + NatToString(count)
  }

  /** The failure message of the except block. */
  function FailureText(key: string, e: Error): string
  {
    "Failed to process " + key + ". Error: " + ErrorText(e)
  }

  /** Everything one invocation does, and what it returns or raises. */
  datatype Invocation = Invocation(effects: seq<Effect>, result: Result<Response, Error>)

  /** The handler as a function of the readable objects. An extraction error
      leaves `file_key` unbound, so the except block itself fails before it
      can publish. */
  function HandlerSpec(objects: map<Location, Bytes>, config: Config, decoders: Decoders, event: Event): Invocation
  {
    match FirstLocation(event)
    case Failure(_) => Invocation([], Failure(UnboundFileKey))
    case Success(loc) =>
      match Work(objects, decoders, loc)
      case Failure(e) =>
        Invocation([Publish(config.topicArn, FailureSubject, Text(FailureText(loc.key, e)))], Failure(e))
      case Success(rows) =>
        var write := if rows == [] then [] else [Write(config.targetBucket, TargetKey(loc.key), rows)];
        var message := SuccessText(loc.key, |rows|);
        Invocation(write + [Publish(config.topicArn, SuccessSubject, Text(message))],
                   Success(Response(200, Text(message))))
  }

  /** A DataFrame with a status column and no rows is not an error:
      nothing is written and success is published with a count of zero. */
  lemma ColumnWithoutRows(objects: map<Location, Bytes>, config: Config, decoders: Decoders, event: Event,
                          columns: set<string>)
    requires FirstLocation(event).Success?
    requires FirstLocation(event).value in objects
    requires decoders.document(objects[FirstLocation(event).value]) == Parsed(Table(columns, []))
    requires "status" in columns
    ensures var message := Text(SuccessText(FirstLocation(event).value.key, 0));
      HandlerSpec(objects, config, decoders, event)
        == Invocation([Publish(config.topicArn, SuccessSubject, message)], Success(Response(200, message)))
  {
  }

  /** Only the first record is read: events that agree on it behave alike,
      whatever follows. */
  lemma OnlyFirstRecord(objects: map<Location, Bytes>, config: Config, decoders: Decoders,
                        e1: Event, e2: Event)
    requires e1.records.Some? && e2.records.Some?
    requires |e1.records.value| > 0 && |e2.records.value| > 0
    requires e1.records.value[0] == e2.records.value[0]
    ensures HandlerSpec(objects, config, decoders, e1) == HandlerSpec(objects, config, decoders, e2)
  {
  }

  /** An event without `Records`, or with an empty list, fails with nothing
      written and nothing published. */
  lemma NoRecordsNoEffects(objects: map<Location, Bytes>, config: Config, decoders: Decoders, event: Event)
    requires event.records == None || event.records == Some([])
    ensures HandlerSpec(objects, config, decoders, event) == Invocation([], Failure(UnboundFileKey))
  {
  }

  /** Nothing at all is published exactly when the first record cannot be
      read; otherwise exactly one notification is published, as the last
      effect, and it is the success one exactly when the handler returns. */
  lemma PublishesOnceIffBound(objects: map<Location, Bytes>, config: Config, decoders: Decoders, event: Event)
    ensures var inv := HandlerSpec(objects, config, decoders, event);
      && (inv.effects == [] <==> FirstLocation(event).Failure?)
      && (FirstLocation(event).Success? ==>
            var last := inv.effects[|inv.effects| - 1];
            && Filter(IsPublish, inv.effects) == [last]
            && last.Publish? && last.topic == config.topicArn
            && (last.subject == SuccessSubject <==> inv.result.Success?))
  {
    var inv := HandlerSpec(objects, config, decoders, event);
    if FirstLocation(event).Success? {
      var loc := FirstLocation(event).value;
      var last := inv.effects[|inv.effects| - 1];
      var init := inv.effects[..|inv.effects| - 1];
      assert inv.effects == init + [last];
      assert forall k :: 0 <= k < |init| ==> !IsPublish(init[k]);
      FilterNone(IsPublish, init);
      FilterAppend(IsPublish, init, [last]);
      assert Filter(IsPublish, [last]) == [last] by {
        assert [last][..0] == [];
      }
      assert SuccessSubject != FailureSubject;
    }
  }

  /** An object is written exactly when the first record's object is read,
      decoded, has a status column and has a matching row; then it is one
      write of the matching rows to the target bucket at the target key. */
  lemma WritesIffMatches(objects: map<Location, Bytes>, config: Config, decoders: Decoders, event: Event)
    ensures var inv := HandlerSpec(objects, config, decoders, event);
      var loc := FirstLocation(event);
      var work := if loc.Success? then Work(objects, decoders, loc.value) else Failure(IndexError);
      Filter(IsWrite, inv.effects)
        == if work.Success? && work.value != []
           then [Write(config.targetBucket, TargetKey(loc.value.key), work.value)]
           else []
  {
    var inv := HandlerSpec(objects, config, decoders, event);
    if FirstLocation(event).Success? {
      var last := inv.effects[|inv.effects| - 1];
      var init := inv.effects[..|inv.effects| - 1];
      assert inv.effects == init + [last];
      FilterAppend(IsWrite, init, [last]);
      assert Filter(IsWrite, [last]) == [] by {
        assert [last][..0] == [];
      }
      if |init| == 1 {
        assert Filter(IsWrite, init) == init by {
          assert init[..0] == [];
        }
      }
    }
  }

  /** The number in the success message reads back as the number of
      matching rows of the first record's object. */
  lemma SuccessCountRoundTrip(objects: map<Location, Bytes>, config: Config, decoders: Decoders, event: Event)
    ensures var inv := HandlerSpec(objects, config, decoders, event);
      inv.result.Success? ==>
        && FirstLocation(event).Success?
        && var key := FirstLocation(event).value.key;
           var text := inv.result.value.body.text;
           var n := |SuccessPrefix(key)|;
           && inv.result.value.statusCode == 200
           && inv.result.value.body.Text?
           && |text| > n && text[..n] == SuccessPrefix(key)
           && (forall i :: n <= i < |text| ==> IsDigit(text[i]))
           && DigitsValue(text[n..]) == |Work(objects, decoders, FirstLocation(event).value).value|
  {
    var inv := HandlerSpec(objects, config, decoders, event);
    if inv.result.Success? {
      var loc := FirstLocation(event).value;
      var rows := Work(objects, decoders, loc).value;
      var text := inv.result.value.body.text;
      var n := |SuccessPrefix(loc.key)|;
      assert text == SuccessPrefix(loc.key) + NatToString(|rows|);
      assert text[n..] == NatToString(|rows|);
      NatToStringRoundTrip(|rows|);
    }
  }

  /** An error after `file_key` is bound: nothing is written, one failure
      notification naming the key and the error is published, and the error
      is re-raised. */
  lemma FailureAfterBind(objects: map<Location, Bytes>, config: Config, decoders: Decoders, event: Event)
    requires FirstLocation(event).Success?
    ensures var inv := HandlerSpec(objects, config, decoders, event);
      var key := FirstLocation(event).value.key;
      inv.result.Failure? ==>
        && inv.result.error != UnboundFileKey
        && inv.effects == [Publish(config.topicArn, FailureSubject, Text(FailureText(key, inv.result.error)))]
  {
  }

  /** `lambda_handler` of lambda.functions.py. */
  method LegacyHandler(cloud: Cloud, config: Config, decoders: Decoders, event: Event)
    returns (response: Result<Response, Error>)
    modifies cloud
    ensures var inv := HandlerSpec(cloud.objects, config, decoders, event);
      cloud.log == old(cloud.log) + inv.effects && response == inv.result
  {
    var located := FirstLocation(event);
    if located.Failure? {
      return Failure(UnboundFileKey);
    }
    var key := located.value.key;
    var failure: Option<Error> := None;
    var fetched := cloud.GetObject(located.value.bucket, key);
    if fetched.Failure? {
      failure := Some(fetched.error);
    } else {
      var data := decoders.document(fetched.value);
      if data.ValueError? {
        failure := Some(ParseError(data.message));
      } else if !HasColumn(data.table, "status") {
        failure := Some(KeyError("status"));
      } else {
        var filtered := Delivered(data.table.rows);
        if filtered != [] {
          cloud.PutObject(config.targetBucket, TargetKey(key), filtered);
        }
        var message := SuccessText(key, |filtered|);
        cloud.PublishMessage(config.topicArn, SuccessSubject, Text(message));
        return Success(Response(200, Text(message)));
      }
    }
    cloud.PublishMessage(config.topicArn, FailureSubject, Text(FailureText(key, failure.value)));
    return Failure(failure.value);
  }
}
