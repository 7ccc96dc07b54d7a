/** The data both handlers work on: the records pandas decodes, the S3
    notification event, the errors that can abort an invocation, and the
    effects an invocation has on S3 and SNS. */
module Types {

  datatype Option<+T> = None | Some(value: T)
  {
    function GetOr(default: T): T
    {
      match this
      case Some(v) => v
      case None => default
    }
  }

  datatype Result<+T, +E> = Success(value: T) | Failure(error: E)

  newtype Byte = b: int | 0 <= b < 256

  /** The raw content of an S3 object. */
  type Bytes = seq<Byte>

  /** One cell of a decoded record: the scalar kinds a JSON document holds.
      Numbers are integers here. */
  datatype Value = VStr(s: string) | VNum(n: int) | VBool(b: bool) | VNull

  /** A record (one row of the DataFrame): field name to value. A field the
      record does not mention is absent from the map. */
  type Record = map<string, Value>

  /** A DataFrame as a pandas reader builds it: its column labels and its
      rows. A document such as `{"status": {}}` gives a `status` column and
      no rows. */
  datatype Table = Table(columns: set<string>, rows: seq<Record>)

  /** What one pandas reader gives back: the DataFrame, or the ValueError it raises. */
  datatype Parsed = Parsed(table: Table) | ValueError(message: string)

  /** The two readers, opaque: `lines` reads line-delimited JSON
      (read_json(..., lines=True)), `document` reads one whole JSON document
      (read_json(...)). */
  datatype Decoders = Decoders(lines: Bytes -> Parsed, document: Bytes -> Parsed)

  datatype Location = Location(bucket: string, key: string)

  /** One entry of the event's `Records` list: `s3.bucket.name` and
      `s3.object.key`, each of which may be missing. */
  datatype S3Entry = S3Entry(bucketName: Option<string>, objectKey: Option<string>)

  /** The Lambda event; `records` is None when the event has no `Records` key. */
  datatype Event = Event(records: Option<seq<S3Entry>>)

  /** Fixed configuration, read once from the environment. */
  datatype Config = Config(targetBucket: string, topicArn: string)

  /** The exceptions an invocation can raise. */
  datatype Error =
    | KeyError(name: string)       // a missing key in the event or the missing `status` column of the legacy handler
    | IndexError                   // `Records[0]` of an empty list
    | NoSuchKey(bucket: string, key: string)  // get_object on an object that does not exist
    | ParseError(message: string)  // the ValueError of a pandas reader
    | MissingStatusColumn          // the ValueError app.py raises itself
    | UnboundFileKey               // the NameError of the legacy except block

  /** `str(e)` of each error. */
  function ErrorText(e: Error): string
  {
    match e
    case KeyError(name) => "'" + name + "'"
    case IndexError => "list index out of range"
    case NoSuchKey(_, _) =>
      "An error occurred (NoSuchKey) when calling the GetObject operation: The specified key does not exist."
    case ParseError(message) => message
    case MissingStatusColumn => "Missing 'status' column in input data"
    case UnboundFileKey => "cannot access local variable 'file_key' where it is not associated with a value"
  }

  /** The per-object entry of a success message: `input`, `output`, `rows`. */
  datatype ProcessingResult = ProcessingResult(input: string, output: string, rows: nat)

  /** An SNS message body: plain text, or the JSON object
      `{"status": "success", "results": [...]}`. */
  datatype Message = Text(text: string) | Outcome(results: seq<ProcessingResult>)

  /** What the handler returns to the Lambda runtime on success. */
  datatype Response = Response(statusCode: nat, body: Message)

  /** An externally visible effect: an S3 put_object or an SNS publish. */
  datatype Effect =
    | Write(bucket: string, key: string, rows: seq<Record>)
    | Publish(topic: string, subject: string, message: Message)

  predicate IsPublish(e: Effect)
  {
    e.Publish?
  }

  predicate IsWrite(e: Effect)
  {
    e.Write?
  }

  function Uri(bucket: string, key: string): string
  {
    "s3://" + bucket + "/" + key
  }

  /** `name in df.columns`. */
  predicate HasColumn(t: Table, name: string)
  {
    name in t.columns
  }

  /** `df["status"] == "delivered"` on a row: the cell is exactly the string
      "delivered" (a missing cell is NaN and compares unequal). */
  predicate HasDeliveredStatus(r: Record)
  {
    "status" in r && r["status"] == VStr("delivered")
  }
}
