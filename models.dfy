/// The values the flattener passes around: JSON values, JSON paths, the flat
/// records built for one table row, and where such a record belongs.
module Models {

  datatype Option<T> = None | Some(value: T) {
    function GetOr(default: T): T {
      match this
      case Some(v) => v
      case None => default
    }
  }

  /** Outcome of an operation whose Rust code panics on bad input. */
  datatype Result<T> = Ok(value: T) | Err(msg: string)

  /**
   * A JSON value. Numbers are split into integers, which carry their value,
   * and floating-point numbers, which carry only their printed text.
   */
  datatype JsonValue =
    | Null
    | Bool(b: bool)
    | Int(i: int)
    | Float(text: string)
    | Str(s: string)
    | Array(items: seq<JsonValue>)
    | Object(fields: map<string, JsonValue>)

  /** `serde_json::Value::is_i64`: an integer that fits in 64 signed bits. */
  predicate IsI64(v: JsonValue) {
    v.Int? && -0x8000_0000_0000_0000 <= v.i < 0x8000_0000_0000_0000
  }

  /** Keys from the document root down to a value, without list positions. */
  type JsonPath = seq<string>

  /** One flat row: the record's values, each under its path inside the list element. */
  type TableRecord = map<JsonPath, JsonValue>

  /** Which table a record belongs to and its ids there. */
  datatype TableLocation = TableLocation(tablePath: seq<JsonPath>, objectId: int, parentObjectId: int) {
    /** The table of the enclosing list: the table path without its last element. */
    function ParentTablePath(): (p: seq<JsonPath>)
      ensures |tablePath| > 0 ==> tablePath == p + [tablePath[|tablePath| - 1]]
      ensures |tablePath| == 0 ==> p == []
    {
      if |tablePath| == 0 then [] else tablePath[..|tablePath| - 1]
    }
  }

  /** What the streaming tokenizer reports, one call per event. */
  datatype Event =
    | StartMap
    | EndMap
    | MapKey(key: string)
    | Value(v: JsonValue)
    | StartArray
    | EndArray

  /** A JSON value that lives outside the sink and that the sink updates in place. */
  class JsonCell {
    var value: JsonValue

    constructor (v: JsonValue)
      ensures value == v
    {
      value := v;
    }
  }
}
