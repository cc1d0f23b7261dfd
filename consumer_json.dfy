/// The JSON sink of the older flattener (src/consumer_json.rs): every object
/// the flattener publishes is appended to the array of its table, and the
/// tables are the keys of one root object.
module ConsumerJson {
  import opened Models

  /**
   * The root object's fields after `v` is appended to the array under
   * `name`; a missing array is created first. Appending to a key that holds
   * anything but an array fails (`consume_to_json` unwraps the failed push).
   */
  function PushToTable(fields: map<string, JsonValue>, name: string, v: JsonValue): (r: Result<map<string, JsonValue>>)
    ensures r.Ok? <==> (name !in fields || fields[name].Array?)
    ensures r.Ok? ==> name in r.value && r.value[name].Array?
    ensures r.Ok? ==> var items := r.value[name].items;
      |items| > 0 && items[|items| - 1] == v
      && items[..|items| - 1] == (if name in fields then fields[name].items else [])
    ensures r.Ok? ==> r.value.Keys == fields.Keys + {name}
    ensures r.Ok? ==> forall k :: k in fields && k != name ==> r.value[k] == fields[k]
  {
    if name in fields && !fields[name].Array? then Err("the table key does not hold an array")
    else
      var items := if name in fields then fields[name].items else [];
      assert (items + [v])[..|items|] == items;
      Ok(fields[name := Array(items + [v])])
  }

  /**
   * Inserting an empty array under a missing table key, then appending to
   * that key's array, is what `PushToTable` computes.
   */
  lemma PushAfterInsert(fields: map<string, JsonValue>, withTable: map<string, JsonValue>, name: string, v: JsonValue)
    requires withTable == if name in fields then fields else fields[name := Array([])]
    requires withTable[name].Array?
    ensures PushToTable(fields, name, v).Ok?
    ensures withTable[name := Array(withTable[name].items + [v])] == PushToTable(fields, name, v).value
  {
  }

  /**
   * `consume_to_json`: appends `obj` to the table `tableName` of the root
   * object. A root that is not an object, or a table key that does not hold
   * an array, makes `consume_to_json` panic; then `ok` is false and nothing changes.
   */
  method ConsumeToJson(root: JsonCell, tableName: string, obj: map<string, JsonValue>) returns (ok: bool)
    modifies root
    ensures ok <==> old(root.value).Object? && PushToTable(old(root.value).fields, tableName, Object(obj)).Ok?
    ensures ok ==> root.value == Object(PushToTable(old(root.value).fields, tableName, Object(obj)).value)
    ensures !ok ==> root.value == old(root.value)
  {
    if !root.value.Object? {
      return false;
    }
    var fields := root.value.fields;
    if tableName !in fields {
      fields := fields[tableName := Array([])];
    }
    var arr := fields[tableName];
    if !arr.Array? {
      return false;
    }
    root.value := Object(fields[tableName := Array(arr.items + [Object(obj)])]);
    ok := true;
  }

  /** The objects published under `name`, in publication order. */
  function RowsOf(log: seq<(string, map<string, JsonValue>)>, name: string): seq<JsonValue>
  {
    if |log| == 0 then []
    else
      var last := log[|log| - 1];
      RowsOf(log[..|log| - 1], name) + (if last.0 == name then [Object(last.1)] else [])
  }

  /** The root object's fields after every publication of `log`, one after the other. */
  function ConsumeLog(fields: map<string, JsonValue>, log: seq<(string, map<string, JsonValue>)>): Result<map<string, JsonValue>>
  {
    if |log| == 0 then Ok(fields)
    else
      match ConsumeLog(fields, log[..|log| - 1])
      case Ok(f) => PushToTable(f, log[|log| - 1].0, Object(log[|log| - 1].1))
      case Err(e) => Err(e)
  }

  predicate AllTables(fields: map<string, JsonValue>)
  {
    forall k :: k in fields ==> fields[k].Array?
  }

  /** Consuming a whole publication log never fails on a root whose keys all hold arrays, and they still do. */
  lemma {:induction false} ConsumeLogTables(fields: map<string, JsonValue>, log: seq<(string, map<string, JsonValue>)>)
    requires AllTables(fields)
    ensures ConsumeLog(fields, log).Ok? && AllTables(ConsumeLog(fields, log).value)
  {
    if |log| > 0 {
      var init, last := log[..|log| - 1], log[|log| - 1];
      ConsumeLogTables(fields, init);
      var f := ConsumeLog(fields, init).value;
      var r := PushToTable(f, last.0, Object(last.1));
      forall k | k in r.value
        ensures r.value[k].Array?
      {
        if k != last.0 {
          assert k in f;
        }
      }
    }
  }

  /**
   * Consuming a whole publication log never fails on a root whose keys all
   * hold arrays, and every table's array ends with the objects published
   * under its name, in publication order, after the rows it had before. A
   * table that nothing was published to is not created.
   */
  lemma {:induction false} ConsumeLogRows(fields: map<string, JsonValue>, log: seq<(string, map<string, JsonValue>)>, name: string)
    requires AllTables(fields)
    ensures ConsumeLog(fields, log).Ok? && AllTables(ConsumeLog(fields, log).value)
    ensures var r := ConsumeLog(fields, log).value;
      name in fields ==> name in r && r[name].items == fields[name].items + RowsOf(log, name)
    ensures var r := ConsumeLog(fields, log).value;
      name !in fields ==> (name in r <==> RowsOf(log, name) != []) && (name in r ==> r[name].items == RowsOf(log, name))
  {
    ConsumeLogTables(fields, log);
    if |log| > 0 {
      var init, last := log[..|log| - 1], log[|log| - 1];
      ConsumeLogRows(fields, init, name);
      var f := ConsumeLog(fields, init).value;
      assert ConsumeLog(fields, log) == PushToTable(f, last.0, Object(last.1));
      PushedItems(f, last.0, Object(last.1), name);
      assert RowsOf(log, name) == RowsOf(init, name) + (if last.0 == name then [Object(last.1)] else []);
    }
  }

  /** What one push leaves under any key: the key's array, with the pushed value appended when it is the table pushed to. */
  lemma PushedItems(fields: map<string, JsonValue>, table: string, v: JsonValue, name: string)
    requires AllTables(fields)
    ensures PushToTable(fields, table, v).Ok?
    ensures var r := PushToTable(fields, table, v).value;
      (name in r <==> name in fields || name == table)
      && (name in r ==> r[name].items == (if name in fields then fields[name].items else []) + (if name == table then [v] else []))
  {
  }
}
