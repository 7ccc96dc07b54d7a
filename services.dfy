/** S3 and SNS as the handlers see them: a fixed set of readable objects and
    a log of the writes and publishes performed, in the order performed. */
module Services {
  import opened Types

  /** `s3.get_object(Bucket=bucket, Key=key)['Body'].read()`. */
  function Fetch(objects: map<Location, Bytes>, bucket: string, key: string): Result<Bytes, Error>
  {
    var loc := Location(bucket, key);
    if loc in objects then Success(objects[loc]) else Failure(NoSuchKey(bucket, key))
  }

  class Cloud {
    /** The objects `get_object` can read during the invocation. */
    const objects: map<Location, Bytes>
    /** Every `put_object` and `publish` performed so far. */
    var log: seq<Effect>

    constructor (objects: map<Location, Bytes>)
      ensures this.objects == objects && log == []
    {
      this.objects := objects;
      log := [];
    }

    /** Reads an object; a missing one raises NoSuchKey. Nothing is logged. */
    method GetObject(bucket: string, key: string) returns (r: Result<Bytes, Error>)
      ensures r.Success? <==> Location(bucket, key) in objects
      ensures r.Success? ==> r.value == objects[Location(bucket, key)]
      ensures r.Failure? ==> r.error == NoSuchKey(bucket, key)
      ensures r == Fetch(objects, bucket, key)
    {
      var loc := Location(bucket, key);
      if loc in objects {
        r := Success(objects[loc]);
      } else {
        r := Failure(NoSuchKey(bucket, key));
      }
    }

    method PutObject(bucket: string, key: string, rows: seq<Record>)
      modifies this
      ensures log == old(log) + [Write(bucket, key, rows)]
    {
      log := log + [Write(bucket, key, rows)];
    }

    method PublishMessage(topic: string, subject: string, message: Message)
      modifies this
      ensures log == old(log) + [Publish(topic, subject, message)]
    {
      log := log + [Publish(topic, subject, message)];
    }
  }
}
