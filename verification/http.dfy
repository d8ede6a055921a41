/**
 * The values that cross the HTTP boundary of the service: parsed JSON request
 * bodies, query strings, the clock's date, and replies. The web framework
 * itself (routing, JSON parsing, `jsonify`, `send_file`) is not part of this
 * model; a handler here receives the already-parsed request and returns the
 * status code together with either the error text or the payload.
 */
module Http {
  import opened Wrappers

  /**
   * A value of a parsed JSON body. Only strings and `null` are modelled:
   * `null` is what Python sees as `None`.
   */
  datatype JsonValue = JNull | JString(s: string)

  /** A parsed JSON object body (`request.get_json()`). */
  type Body = map<string, JsonValue>

  /** A query string (`request.args`); its values are always strings. */
  type Args = map<string, string>

  /** `request.args.get(key)`: `None` when the key is absent. */
  function ArgGet(args: Args, key: string): Option<string>
  {
    if key in args then Some(args[key]) else None
  }

  /** Python's `all(k in data for k in keys)`. */
  predicate HasAll(body: Body, keys: seq<string>)
  {
    forall k :: k in keys ==> k in body
  }

  /** A handler's answer: an error status with its `error` text, or a success status with its payload. */
  datatype Reply<T> = Failure(status: nat, error: string) | Success(status: nat, value: T)

  /**
   * What Flask answers when a handler raises: the source catches no database
   * error, so a failed commit surfaces as this reply.
   */
  const InternalError := "Internal Server Error"

  /** A calendar date, as the clock supplies it when a ping is stored. */
  datatype Date = Date(year: int, month: int, day: int)

  /**
   * A CSV field before `csv.writer` renders it: a number, a string, or a date
   * (rendered as YYYY-MM-DD; the rendering itself is not modelled).
   */
  datatype Cell = Number(n: int) | Text(s: string) | Day(d: Date)

  /** An exported CSV file: its delimiter, its header row and the rows written after it. */
  datatype CsvFile = CsvFile(delimiter: char, header: seq<Cell>, records: seq<seq<Cell>>)
  {
    /** Every row of the file, in the order written. */
    function Rows(): seq<seq<Cell>>
    {
      [header] + records
    }
  }
}
