/** The current handler, app.py: `process_file` reads one S3 object, decodes
    it as line-delimited JSON or, failing that, as one JSON document, keeps the
    rows whose lower-cased status is "delivered" and writes them under a
    derived key; `lambda_handler` runs it for every record of the event and
    publishes one success or one failure notification. */
module App {
  import opened Types
  import opened Text
  import opened Seqs
  import opened Services

  const RawInputMarker: string := "-raw_input"
  const DeliveredMarker: string := "-delivered"
  const ProcessedPrefix: string := "processed/"
  const SuccessSubject: string := "DoorDash Processing: SUCCESS"
  const FailureSubject: string := "DoorDash Processing: FAILURE"

  // ---------------------------------------------------------------------------
  // Destination key

  /** Every "-raw_input" becomes "-delivered"; a key that this leaves as it
      was gets the prefix "processed/" instead. */
  function DeriveKey(key: string): (out: string)
    ensures out != key
  {
    var replaced := ReplaceAll(key, RawInputMarker, DeliveredMarker);
    if replaced == key then ProcessedPrefix + key else replaced
  }

  /** A key containing "-raw_input" has every occurrence replaced, keeps its
      length, gets no prefix, and no "-raw_input" remains. */
  lemma DeriveKeyReplaces(key: string)
    requires Contains(key, RawInputMarker)
    ensures DeriveKey(key) == ReplaceAll(key, RawInputMarker, DeliveredMarker)
    ensures |DeriveKey(key)| == |key|
    ensures !Contains(DeriveKey(key), RawInputMarker)
  {
    ReplaceAllChanges(key, RawInputMarker, DeliveredMarker);
    FirstCharOnlyAtStart(DeliveredMarker, RawInputMarker);
    FirstCharOnlyAtStart(RawInputMarker, DeliveredMarker);
    ReplaceAllLeavesNone(key, RawInputMarker, DeliveredMarker);
  }

  /** Any other key is exactly "processed/" + key. */
  lemma DeriveKeyPrefixes(key: string)
    requires !Contains(key, RawInputMarker)
    ensures DeriveKey(key) == ProcessedPrefix + key
  {
    ReplaceAllAbsent(key, RawInputMarker, DeliveredMarker);
  }

  /** The two markers differ at their second character, so a key with one
      swapped for the other is a different key. */
  lemma MarkerSwapDiffers(prefix: string, x: string, y: string)
    ensures prefix + DeliveredMarker + x != prefix + RawInputMarker + y
  {
    var i := |prefix|;
    assert (prefix + DeliveredMarker + x)[i + 1] == DeliveredMarker[1];
    assert (prefix + RawInputMarker + y)[i + 1] == RawInputMarker[1];
  }

  lemma TwoMarkerLayout(prefix: string, suffix: string)
    ensures prefix + RawInputMarker + RawInputMarker + suffix
         == prefix + RawInputMarker + (RawInputMarker + suffix)
    ensures [] + RawInputMarker + suffix == RawInputMarker + suffix
    ensures prefix + DeliveredMarker + ([] + DeliveredMarker + suffix)
         == prefix + DeliveredMarker + DeliveredMarker + suffix
  {
  }

  /** A key with one marker, elsewhere free of '-', has it replaced in place. */
  lemma DeriveKeyOneMarker(prefix: string, suffix: string)
    requires forall k :: 0 <= k < |prefix| ==> prefix[k] != '-'
    requires forall k :: 0 <= k < |suffix| ==> suffix[k] != '-'
    ensures DeriveKey(prefix + RawInputMarker + suffix) == prefix + DeliveredMarker + suffix
  {
    ReplaceAllAfterFree(prefix, RawInputMarker, DeliveredMarker, suffix);
    ReplaceAllFree(suffix, RawInputMarker, DeliveredMarker);
    MarkerSwapDiffers(prefix, suffix, suffix);
  }

  /** A repeated marker is replaced at every occurrence, not only the first. */
  lemma DeriveKeyTwoMarkers(prefix: string, suffix: string)
    requires forall k :: 0 <= k < |prefix| ==> prefix[k] != '-'
    requires forall k :: 0 <= k < |suffix| ==> suffix[k] != '-'
    ensures DeriveKey(prefix + RawInputMarker + RawInputMarker + suffix)
         == prefix + DeliveredMarker + DeliveredMarker + suffix
  {
    var empty: string := [];
    TwoMarkerLayout(prefix, suffix);
    ReplaceAllAfterFree(prefix, RawInputMarker, DeliveredMarker, RawInputMarker + suffix);
    ReplaceAllAfterFree(empty, RawInputMarker, DeliveredMarker, suffix);
    ReplaceAllFree(suffix, RawInputMarker, DeliveredMarker);
    MarkerSwapDiffers(prefix, DeliveredMarker + suffix, RawInputMarker + suffix);
  }

  // ---------------------------------------------------------------------------
  // Status normalisation and the delivered filter

  /** `astype(str)` of a row's status cell; a row without the field holds NaN. */
  function StatusText(r: Record): string
  {
    if "status" !in r then "nan"
    else match r["status"]
      case VStr(s) => s
      case VNum(n) => IntToString(n)
      case VBool(b) => if b then "True" else "False"
      case VNull => "None"
  }

  /** The row after `df["status"] = df["status"].astype(str).str.lower()`:
      only the status cell changes, and it becomes a lower-case string. */
  function Normalize(r: Record): (n: Record)
    ensures n.Keys == r.Keys + {"status"}
    ensures n["status"].VStr? && IsLower(n["status"].s)
    ensures forall f :: f in r && f != "status" ==> n[f] == r[f]
  {
    LowerIdempotent(StatusText(r));
    r["status" := VStr(Lower(StatusText(r)))]
  }

  function NormalizeAll(rows: seq<Record>): (r: seq<Record>)
    ensures |r| == |rows|
  {
    seq(|rows|, i requires 0 <= i < |rows| => Normalize(rows[i]))
  }

  /** The row is selected: its status, as a lower-cased string, is "delivered". */
  predicate Matches(r: Record)
  {
    Lower(StatusText(r)) == "delivered"
  }

  /** `df[df["status"] == "delivered"]` after the status column was normalised. */
  function DeliveredRows(rows: seq<Record>): seq<Record>
  {
    Filter(HasDeliveredStatus, NormalizeAll(rows))
  }

  /** Normalising decides selection, and a selected row only has its status
      rewritten to "delivered". */
  lemma NormalizeMatches(r: Record)
    ensures HasDeliveredStatus(Normalize(r)) <==> Matches(r)
    ensures Matches(r) ==> Normalize(r) == r["status" := VStr("delivered")]
  {
  }

  /** Only a string status can match: numbers, booleans, nulls and missing
      cells never render as "delivered". */
  lemma OnlyStringsMatch(r: Record)
    ensures Matches(r) <==> "status" in r && r["status"].VStr? && Lower(r["status"].s) == "delivered"
  {
    if "status" !in r {
      assert |Lower("nan")| == 3;
    } else {
      match r["status"]
      case VStr(_) =>
      case VNum(n) =>
        var text := IntToString(n);
        assert Lower(text)[0] == LowerChar(text[0]) != 'd';
      case VBool(b) =>
        assert |Lower(if b then "True" else "False")| < 9;
      case VNull =>
        assert |Lower("None")| == 4;
    }
  }

  /** Comparison ignores case; other values and the empty string are dropped. */
  lemma StatusCaseInsensitive()
    ensures Matches(map["status" := VStr("delivered")])
    ensures Matches(map["status" := VStr("Delivered")])
    ensures Matches(map["status" := VStr("DELIVERED")])
    ensures !Matches(map["status" := VStr("cancelled")])
    ensures !Matches(map["status" := VStr("")])
    ensures !Matches(map[])
  {
    LowerExample("Delivered");
    LowerExample("DELIVERED");
    assert Lower("cancelled")[0] == 'c';
    assert |Lower("nan")| == 3;
  }

  lemma LowerExample(x: string)
    requires x == "Delivered" || x == "DELIVERED"
    ensures Lower(x) == "delivered"
  {
    forall i | 0 <= i < 9
      ensures Lower(x)[i] == "delivered"[i]
    {
    }
  }

  /** The kept rows are the matching rows, in their original order, each with
      its status set to "delivered" and every other field as it was. */
  lemma DeliveredRowsSelect(rows: seq<Record>)
    ensures var out, idx := DeliveredRows(rows), Positions(HasDeliveredStatus, NormalizeAll(rows));
      && |idx| == |out|
      && Increasing(idx)
      && (forall k :: 0 <= k < |idx| ==>
            idx[k] < |rows| && Matches(rows[idx[k]]) && out[k] == rows[idx[k]]["status" := VStr("delivered")])
      && (forall i :: 0 <= i < |rows| && Matches(rows[i]) ==> i in idx)
  {
    var normalized := NormalizeAll(rows);
    FilterSelects(HasDeliveredStatus, normalized);
    forall i | 0 <= i < |rows|
      ensures HasDeliveredStatus(normalized[i]) <==> Matches(rows[i])
      ensures Matches(rows[i]) ==> normalized[i] == rows[i]["status" := VStr("delivered")]
    {
      NormalizeMatches(rows[i]);
    }
  }

  /** Every kept row carries the status "delivered". */
  lemma DeliveredRowsStatus(rows: seq<Record>)
    ensures forall k :: 0 <= k < |DeliveredRows(rows)| ==>
      DeliveredRows(rows)[k]["status"] == VStr("delivered")
  {
  }

  /** Filtering rows that were already filtered returns them unchanged. */
  lemma DeliveredRowsIdempotent(rows: seq<Record>)
    ensures DeliveredRows(DeliveredRows(rows)) == DeliveredRows(rows)
  {
    var out := DeliveredRows(rows);
    forall k | 0 <= k < |out|
      ensures NormalizeAll(out)[k] == out[k]
    {
      assert HasDeliveredStatus(out[k]);
      LowerFixed("delivered");
      assert out[k]["status" := VStr("delivered")] == out[k];
    }
    assert NormalizeAll(out) == out;
    FilterAll(HasDeliveredStatus, out);
  }

  // ---------------------------------------------------------------------------
  // Decoding

  /** `read_json(lines=True)`; on its ValueError, `read_json` of the whole
      document, whose ValueError propagates. */
  function Decode(decoders: Decoders, body: Bytes): Result<Table, Error>
  {
    match decoders.lines(body)
    case Parsed(table) => Success(table)
    case ValueError(_) =>
      match decoders.document(body)
      case Parsed(table) => Success(table)
      case ValueError(message) => Failure(ParseError(message))
  }

  /** The line-delimited reading wins when it succeeds; the whole-document
      reading is used only after it fails, and decoding fails only when both do. */
  lemma DecodeOrder(decoders: Decoders, body: Bytes)
    ensures decoders.lines(body).Parsed? ==> Decode(decoders, body) == Success(decoders.lines(body).table)
    ensures decoders.lines(body).ValueError? ==>
      Decode(decoders, body) == (match decoders.document(body)
                                 case Parsed(table) => Success(table)
                                 case ValueError(m) => Failure(ParseError(m)))
    ensures Decode(decoders, body).Failure? <==>
      decoders.lines(body).ValueError? && decoders.document(body).ValueError?
  {
  }

  /** A DataFrame decodes the same from a line-delimited body and from a
      whole-document body that the line-delimited reader rejects, so the
      object written does not depend on the layout. */
  lemma DecodeLayoutInvariant(decoders: Decoders, linesBody: Bytes, docBody: Bytes, table: Table)
    requires decoders.lines(linesBody) == Parsed(table)
    requires decoders.lines(docBody).ValueError? && decoders.document(docBody) == Parsed(table)
    ensures Decode(decoders, linesBody) == Decode(decoders, docBody) == Success(table)
  {
  }

  // ---------------------------------------------------------------------------
  // process_file

  /** What one processed object yields: the row count, the output key and
      the rows written there. */
  datatype Processed = Processed(count: nat, outKey: string, rows: seq<Record>)

  /** `process_file(bucket, key)` as a function of the readable objects. */
  function ProcessSpec(objects: map<Location, Bytes>, decoders: Decoders, bucket: string, key: string)
    : Result<Processed, Error>
  {
    match Fetch(objects, bucket, key)
    case Failure(e) => Failure(e)
    case Success(body) =>
      match Decode(decoders, body)
      case Failure(e) => Failure(e)
      case Success(table) =>
        if !HasColumn(table, "status") then Failure(MissingStatusColumn)
        else
          var rows := DeliveredRows(table.rows);
          Success(Processed(|rows|, DeriveKey(key), rows))
  }

  /** Processing succeeds exactly when the object exists, decodes and has a
      status column; then the count is the number of rows written, the key is
      the derived one, and the rows are the delivered ones. */
  lemma ProcessSpecSucceeds(objects: map<Location, Bytes>, decoders: Decoders, bucket: string, key: string)
    ensures var p := ProcessSpec(objects, decoders, bucket, key);
      var loc := Location(bucket, key);
      && (p.Success? <==>
            loc in objects && Decode(decoders, objects[loc]).Success?
            && HasColumn(Decode(decoders, objects[loc]).value, "status"))
      && (p.Success? ==>
            && p.value.count == |p.value.rows|
            && p.value.outKey == DeriveKey(key) && p.value.outKey != key
            && p.value.rows == DeliveredRows(Decode(decoders, objects[loc]).value.rows))
  {
  }

  /** A DataFrame with a status column and no rows is not an error: an
      empty object is written at the derived key and zero rows are reported. */
  lemma ColumnWithoutRows(objects: map<Location, Bytes>, decoders: Decoders, bucket: string, key: string,
                          columns: set<string>)
    requires Location(bucket, key) in objects
    requires Decode(decoders, objects[Location(bucket, key)]) == Success(Table(columns, []))
    requires "status" in columns
    ensures ProcessSpec(objects, decoders, bucket, key) == Success(Processed(0, DeriveKey(key), []))
  {
  }

  /** The error raised, checked in the order the function runs: missing
      object, both readers failing, no status column. Zero matching rows is
      not an error. */
  lemma ProcessSpecFails(objects: map<Location, Bytes>, decoders: Decoders, bucket: string, key: string)
    ensures var p := ProcessSpec(objects, decoders, bucket, key);
      var loc := Location(bucket, key);
      && (loc !in objects ==> p == Failure(NoSuchKey(bucket, key)))
      && (loc in objects && Decode(decoders, objects[loc]).Failure? ==>
            p == Failure(ParseError(decoders.document(objects[loc]).message)))
      && ((loc in objects && Decode(decoders, objects[loc]).Success?
           && !HasColumn(Decode(decoders, objects[loc]).value, "status")) ==> p == Failure(MissingStatusColumn))
  {
  }

  /** The DataFrame `process_file` builds; line 30 overwrites its status
      column in place. */
  class Frame {
    const columns: set<string>
    var rows: seq<Record>

    constructor (table: Table)
      ensures columns == table.columns && rows == table.rows
    {
      columns := table.columns;
      rows := table.rows;
    }

    method LowerStatus()
      modifies this
      ensures rows == NormalizeAll(old(rows))
    {
      rows := NormalizeAll(rows);
    }
  }

  /** `process_file`: on success exactly one write, to the target bucket at
      the derived key, even when no row matched; on any error no write. */
  method ProcessFile(cloud: Cloud, config: Config, decoders: Decoders, bucket: string, key: string)
    returns (outcome: Result<(nat, string), Error>)
    modifies cloud
    ensures var spec := ProcessSpec(cloud.objects, decoders, bucket, key);
      && (outcome.Success? <==> spec.Success?)
      && (spec.Success? ==>
            && outcome.value == (spec.value.count, spec.value.outKey)
            && cloud.log == old(cloud.log) + [Write(config.targetBucket, spec.value.outKey, spec.value.rows)])
      && (spec.Failure? ==> outcome == Failure(spec.error) && cloud.log == old(cloud.log))
  {
    var fetched := cloud.GetObject(bucket, key);
    if fetched.Failure? {
      return Failure(fetched.error);
    }
    var decoded := Decode(decoders, fetched.value);
    if decoded.Failure? {
      return Failure(decoded.error);
    }
    var frame := new Frame(decoded.value);
    if "status" !in frame.columns {
      return Failure(MissingStatusColumn);
    }
    frame.LowerStatus();
    var delivered := Filter(HasDeliveredStatus, frame.rows);
    var outKey := DeriveKey(key);
    cloud.PutObject(config.targetBucket, outKey, delivered);
    return Success((|delivered|, outKey));
  }

  // ---------------------------------------------------------------------------
  // lambda_handler

  /** `event.get("Records", [])`. */
  function Entries(event: Event): seq<S3Entry>
  {
    event.records.GetOr([])
  }

  /** What one successfully processed event record contributes: its entry of
      `results` and its write. */
  datatype StepOk = StepOk(result: ProcessingResult, write: Effect)

  /** One iteration of the loop: read the bucket and key, process the file. */
  function Step(objects: map<Location, Bytes>, config: Config, decoders: Decoders, entry: S3Entry)
    : Result<StepOk, Error>
  {
    match entry.bucketName
    case None => Failure(KeyError("name"))
    case Some(bucket) =>
      match entry.objectKey
      case None => Failure(KeyError("key"))
      case Some(key) =>
        match ProcessSpec(objects, decoders, bucket, key)
        case Failure(e) => Failure(e)
        case Success(p) =>
          Success(StepOk(ProcessingResult(Uri(bucket, key), Uri(config.targetBucket, p.outKey), p.count),
                         Write(config.targetBucket, p.outKey, p.rows)))
  }

  /** The state of the loop: the results so far, the writes performed, and
      the error that ended it, if any. */
  datatype Batch = Batch(results: seq<ProcessingResult>, writes: seq<Effect>, error: Option<Error>)

  /** A loop over `entries`, in order, stopping at the first error, whose
      body processes one record with `step`. */
  function Loop(step: S3Entry -> Result<StepOk, Error>, entries: seq<S3Entry>): Batch
    decreases |entries|
  {
    if entries == [] then Batch([], [], None)
    else
      var prev := Loop(step, entries[..|entries| - 1]);
      if prev.error.Some? then prev
      else
        match step(entries[|entries| - 1])
        case Failure(e) => prev.(error := Some(e))
        case Success(ok) => Batch(prev.results + [ok.result], prev.writes + [ok.write], None)
  }

  function StepOf(objects: map<Location, Bytes>, config: Config, decoders: Decoders): S3Entry -> Result<StepOk, Error>
  {
    entry => Step(objects, config, decoders, entry)
  }

  /** The loop of `lambda_handler`. */
  function Run(objects: map<Location, Bytes>, config: Config, decoders: Decoders, entries: seq<S3Entry>): Batch
  {
    Loop(StepOf(objects, config, decoders), entries)
  }

  /** One more record: the loop, still running after `i` records, goes on
      with the step of record `i`. */
  lemma LoopNext(step: S3Entry -> Result<StepOk, Error>, entries: seq<S3Entry>, i: nat)
    requires i < |entries| && Loop(step, entries[..i]).error.None?
    ensures var prev := Loop(step, entries[..i]);
      Loop(step, entries[..i + 1]) ==
        match step(entries[i])
        case Failure(e) => prev.(error := Some(e))
        case Success(ok) => Batch(prev.results + [ok.result], prev.writes + [ok.write], None)
  {
    assert entries[..i + 1][..i] == entries[..i];
  }

  /** The one notification published after the loop. */
  function Notification(config: Config, b: Batch): Effect
  {
    if b.error.None? then Publish(config.topicArn, SuccessSubject, Outcome(b.results))
    else Publish(config.topicArn, FailureSubject, Text(ErrorText(b.error.value)))
  }

  /** Everything the handler does to S3 and SNS, in order. */
  function HandlerEffects(config: Config, b: Batch): seq<Effect>
  {
    b.writes + [Notification(config, b)]
  }

  /** The return value, or the re-raised error. */
  function Reply(b: Batch): Result<Response, Error>
  {
    if b.error.None? then Success(Response(200, Outcome(b.results))) else Failure(b.error.value)
  }

  /** The loop completes exactly when every record processes. */
  lemma {:induction false} LoopCompletes(step: S3Entry -> Result<StepOk, Error>, entries: seq<S3Entry>)
    ensures Loop(step, entries).error.None? <==> forall k :: 0 <= k < |entries| ==> step(entries[k]).Success?
    decreases |entries|
  {
    if entries != [] {
      var n := |entries| - 1;
      var init := entries[..n];
      LoopCompletes(step, init);
      if Loop(step, init).error.Some? {
        var k :| 0 <= k < n && step(init[k]).Failure?;
        assert init[k] == entries[k];
      } else {
        assert forall k :: 0 <= k < n ==> init[k] == entries[k];
      }
    }
  }

  /** A completed loop has one result and one write per record, in event
      order, each the one its record's processing yields. */
  lemma {:induction false} LoopSucceeds(step: S3Entry -> Result<StepOk, Error>, entries: seq<S3Entry>)
    ensures var b := Loop(step, entries);
      b.error.None? ==>
        && |b.results| == |entries| && |b.writes| == |entries|
        && forall k :: 0 <= k < |entries| ==> step(entries[k]) == Success(StepOk(b.results[k], b.writes[k]))
    decreases |entries|
  {
    if entries != [] {
      var n := |entries| - 1;
      var init := entries[..n];
      LoopSucceeds(step, init);
      var prev, b := Loop(step, init), Loop(step, entries);
      var last := step(entries[n]);
      if prev.error.None? && last.Success? {
        assert b == Batch(prev.results + [last.value.result], prev.writes + [last.value.write], None);
        forall k | 0 <= k < |entries|
          ensures step(entries[k]) == Success(StepOk(b.results[k], b.writes[k]))
        {
          if k < n {
            assert init[k] == entries[k];
          }
        }
      }
    }
  }

  /** Once the loop has failed, later records change nothing. */
  lemma {:induction false} LoopKeepsFirstError(step: S3Entry -> Result<StepOk, Error>, entries: seq<S3Entry>, n: nat)
    requires n <= |entries|
    requires Loop(step, entries[..n]).error.Some?
    ensures Loop(step, entries) == Loop(step, entries[..n])
    decreases |entries|
  {
    if n < |entries| {
      var init := entries[..|entries| - 1];
      assert init[..n] == entries[..n];
      LoopKeepsFirstError(step, init, n);
    } else {
      assert entries[..n] == entries;
    }
  }

  /** An error at record `j`, after `j` records that succeeded, aborts the
      rest: the writes are exactly those of the first `j` records and the
      error is the one record `j` raised. */
  lemma LoopStopsAtFirstError(step: S3Entry -> Result<StepOk, Error>, entries: seq<S3Entry>, j: nat)
    requires j < |entries|
    requires forall k :: 0 <= k < j ==> step(entries[k]).Success?
    requires step(entries[j]).Failure?
    ensures var b, p := Loop(step, entries), Loop(step, entries[..j]);
      && p.error.None?
      && |b.writes| == j
      && b == Batch(p.results, p.writes, Some(step(entries[j]).error))
  {
    var prefix := entries[..j];
    assert forall k :: 0 <= k < j ==> prefix[k] == entries[k];
    LoopCompletes(step, prefix);
    LoopSucceeds(step, prefix);
    assert entries[..j + 1][..j] == prefix;
    LoopKeepsFirstError(step, entries, j + 1);
  }

  /** Every effect in `effects` is a write to `bucket`. */
  predicate AllWritesTo(effects: seq<Effect>, bucket: string)
  {
    forall k :: 0 <= k < |effects| ==> effects[k].Write? && effects[k].bucket == bucket
  }

  /** A loop whose every step writes to `bucket` performs only writes to it. */
  lemma {:induction false} LoopOnlyWrites(step: S3Entry -> Result<StepOk, Error>, entries: seq<S3Entry>, bucket: string)
    requires forall e :: step(e).Success? ==> AllWritesTo([step(e).value.write], bucket)
    ensures AllWritesTo(Loop(step, entries).writes, bucket)
    decreases |entries|
  {
    if entries != [] {
      var prev := Loop(step, entries[..|entries| - 1]);
      LoopOnlyWrites(step, entries[..|entries| - 1], bucket);
      var last := step(entries[|entries| - 1]);
      if prev.error.None? && last.Success? {
        assert AllWritesTo([last.value.write], bucket);
        assert Loop(step, entries).writes == prev.writes + [last.value.write];
      }
    }
  }

  /** A record that processes yields its write to the target bucket at the
      derived key, and a result naming the source object, that object and
      the number of rows written. */
  lemma StepWrites(objects: map<Location, Bytes>, config: Config, decoders: Decoders, entry: S3Entry)
    ensures var r := Step(objects, config, decoders, entry);
      r.Success? ==>
        && entry.bucketName.Some? && entry.objectKey.Some?
        && var bucket, key := entry.bucketName.value, entry.objectKey.value;
           var out := DeriveKey(key);
           && out != key
           && r.value.write.Write?
           && r.value.write == Write(config.targetBucket, out, r.value.write.rows)
           && r.value.result == ProcessingResult(Uri(bucket, key), Uri(config.targetBucket, out), |r.value.write.rows|)
  {
    var r := Step(objects, config, decoders, entry);
    if r.Success? {
      var p := ProcessSpec(objects, decoders, entry.bucketName.value, entry.objectKey.value);
      ProcessSpecSucceeds(objects, decoders, entry.bucketName.value, entry.objectKey.value);
      assert r.value.write == Write(config.targetBucket, p.value.outKey, p.value.rows);
    }
  }

  /** The loop of `lambda_handler` performs only writes, all to the target bucket. */
  lemma RunOnlyWrites(objects: map<Location, Bytes>, config: Config, decoders: Decoders, entries: seq<S3Entry>)
    ensures AllWritesTo(Run(objects, config, decoders, entries).writes, config.targetBucket)
  {
    var step := StepOf(objects, config, decoders);
    forall e | step(e).Success?
      ensures AllWritesTo([step(e).value.write], config.targetBucket)
    {
      StepWrites(objects, config, decoders, e);
    }
    LoopOnlyWrites(step, entries, config.targetBucket);
  }

  /** On success each result names the source object, the object written at
      the derived key in the target bucket, and the number of rows written. */
  lemma HandlerResults(objects: map<Location, Bytes>, config: Config, decoders: Decoders, event: Event)
    ensures var entries, b := Entries(event), Run(objects, config, decoders, Entries(event));
      b.error.None? ==>
        && |b.results| == |entries| && |b.writes| == |entries|
        && forall k :: 0 <= k < |entries| ==>
             && entries[k].bucketName.Some? && entries[k].objectKey.Some?
             && var bucket, key := entries[k].bucketName.value, entries[k].objectKey.value;
                var out := DeriveKey(key);
                && out != key
                && b.writes[k].Write?
                && b.writes[k] == Write(config.targetBucket, out, b.writes[k].rows)
                && b.results[k] == ProcessingResult(Uri(bucket, key), Uri(config.targetBucket, out), |b.writes[k].rows|)
  {
    var entries, b := Entries(event), Run(objects, config, decoders, Entries(event));
    LoopSucceeds(StepOf(objects, config, decoders), entries);
    if b.error.None? {
      forall k | 0 <= k < |entries|
        ensures entries[k].bucketName.Some? && entries[k].objectKey.Some?
        ensures var bucket, key := entries[k].bucketName.value, entries[k].objectKey.value;
                var out := DeriveKey(key);
                && out != key
                && b.writes[k].Write?
                && b.writes[k] == Write(config.targetBucket, out, b.writes[k].rows)
                && b.results[k] == ProcessingResult(Uri(bucket, key), Uri(config.targetBucket, out), |b.writes[k].rows|)
      {
        StepWrites(objects, config, decoders, entries[k]);
      }
    }
  }

  /** Exactly one notification is published, after every write: the success
      one when no error occurred, the failure one otherwise. */
  lemma HandlerPublishesOnce(objects: map<Location, Bytes>, config: Config, decoders: Decoders, event: Event)
    ensures var b := Run(objects, config, decoders, Entries(event));
      var effects := HandlerEffects(config, b);
      && Filter(IsPublish, effects) == [Notification(config, b)]
      && effects[|effects| - 1] == Notification(config, b)
      && (Notification(config, b).subject == SuccessSubject <==> b.error.None?)
      && (b.error.None? <==> Reply(b).Success?)
  {
    var b := Run(objects, config, decoders, Entries(event));
    RunOnlyWrites(objects, config, decoders, Entries(event));
    FilterNone(IsPublish, b.writes);
    FilterAppend(IsPublish, b.writes, [Notification(config, b)]);
    assert [Notification(config, b)][..0] == [];
    assert Filter(IsPublish, [Notification(config, b)]) == [Notification(config, b)];
    assert SuccessSubject != FailureSubject;
  }

  /** An event without records succeeds with an empty result list, writes
      nothing and publishes one success notification. */
  lemma EmptyEvent(objects: map<Location, Bytes>, config: Config, decoders: Decoders, event: Event)
    requires event.records == None || event.records == Some([])
    ensures var b := Run(objects, config, decoders, Entries(event));
      && HandlerEffects(config, b) == [Publish(config.topicArn, SuccessSubject, Outcome([]))]
      && Reply(b) == Success(Response(200, Outcome([])))
  {
  }

  /** The loop of `lambda_handler`: each record in order, stopping at the
      first error; only the writes of the records processed reach the log. */
  method ProcessRecords(cloud: Cloud, config: Config, decoders: Decoders, entries: seq<S3Entry>)
    returns (results: seq<ProcessingResult>, failure: Option<Error>)
    modifies cloud
    ensures var b := Run(cloud.objects, config, decoders, entries);
      && cloud.log == old(cloud.log) + b.writes
      && results == b.results
      && failure == b.error
  {
    ghost var step := StepOf(cloud.objects, config, decoders);
    results := [];
    failure := None;
    ghost var writes: seq<Effect> := [];
    var i := 0;
    while i < |entries| && failure.None?
      invariant 0 <= i <= |entries|
      invariant cloud.log == old(cloud.log) + writes
      invariant failure.None? ==> Loop(step, entries[..i]) == Batch(results, writes, None)
      invariant failure.Some? ==> i < |entries| && Loop(step, entries[..i + 1]) == Batch(results, writes, failure)
      decreases |entries| - i, failure.None?
    {
      var entry := entries[i];
      LoopNext(step, entries, i);
      assert step(entry) == Step(cloud.objects, config, decoders, entry);
      if entry.bucketName.None? {
        failure := Some(KeyError("name"));
      } else if entry.objectKey.None? {
        failure := Some(KeyError("key"));
      } else {
        var bucket, key := entry.bucketName.value, entry.objectKey.value;
        var processed := ProcessFile(cloud, config, decoders, bucket, key);
        if processed.Failure? {
          failure := Some(processed.error);
        } else {
          var (count, outKey) := processed.value;
          results := results + [ProcessingResult(Uri(bucket, key), Uri(config.targetBucket, outKey), count)];
          writes := writes + [Write(config.targetBucket, outKey, ProcessSpec(cloud.objects, decoders, bucket, key).value.rows)];
          i := i + 1;
        }
      }
    }
    if failure.Some? {
      LoopKeepsFirstError(step, entries, i + 1);
    } else {
      assert entries[..i] == entries;
    }
  }

  /** `lambda_handler`: the loop, then the success publish, or, on the first
      error, the failure publish and the re-raise. */
  method LambdaHandler(cloud: Cloud, config: Config, decoders: Decoders, event: Event)
    returns (response: Result<Response, Error>)
    modifies cloud
    ensures var b := Run(cloud.objects, config, decoders, Entries(event));
      && cloud.log == old(cloud.log) + HandlerEffects(config, b)
      && response == Reply(b)
  {
    var results, failure := ProcessRecords(cloud, config, decoders, Entries(event));
    if failure.None? {
      var message := Outcome(results);
      cloud.PublishMessage(config.topicArn, SuccessSubject, message);
      return Success(Response(200, message));
    } else {
      cloud.PublishMessage(config.topicArn, FailureSubject, Text(ErrorText(failure.value)));
      return Failure(failure.value);
    }
  }
}
