/// The JSON sink of the newer flattener (src/database/database_json.rs):
/// each record becomes a flat JSON object, with its own and its parent's id
/// columns, appended to the array of its table inside one target object.
module DatabaseJson {
  import opened Strings
  import opened Models
  import opened Naming
  import opened ConsumerJson

  /** `json_path_to_str` of every path, in order. */
  function JsonPathNames(paths: seq<JsonPath>): (r: seq<string>)
    ensures |r| == |paths|
    ensures forall i :: 0 <= i < |paths| ==> r[i] == NestedKeyToStr(paths[i])
  {
    if |paths| == 0 then [] else [NestedKeyToStr(paths[0])] + JsonPathNames(paths[1..])
  }

  /**
   * `table_path_to_str`: the table path reversed, the root name appended as
   * a one-key path, every path turned into a column name, every name
   * escaped for `_lin_` and the names joined by `_lin_`.
   */
  function TableName(root: string, tablePath: seq<JsonPath>): string
  {
    TablePathToStr(JsonPathNames(Reversed(tablePath) + [[root]]))
  }

  /** The root table is named after the root name alone. */
  lemma TableNameOfRoot(root: string)
    ensures TableName(root, []) == EscapeTablePathElement(EscapeIdPrefix(EscapeNestedKeyElement(root)))
  {
    assert Reversed<JsonPath>([]) + [[root]] == [[root]];
  }

  /**
   * A nested table's name is its innermost list's key name, `_lin_`, then
   * the name of the enclosing table: tables are named innermost first.
   */
  lemma TableNameOfNested(root: string, tablePath: seq<JsonPath>)
    requires |tablePath| > 0
    ensures var inner := tablePath[|tablePath| - 1];
      TableName(root, tablePath)
      == EscapeTablePathElement(NestedKeyToStr(inner)) + "_lin_" + TableName(root, TableLocation(tablePath, 0, 0).ParentTablePath())
  {
    var parent := tablePath[..|tablePath| - 1];
    var inner := tablePath[|tablePath| - 1];
    assert tablePath == parent + [inner];
    ReversedAppend(parent, inner);
    var rest := Reversed(parent) + [[root]];
    assert Reversed(tablePath) + [[root]] == [inner] + rest;
    var names := JsonPathNames([inner] + rest);
    assert names == [NestedKeyToStr(inner)] + JsonPathNames(rest);
    TablePathCons(NestedKeyToStr(inner), JsonPathNames(rest));
  }

  /**
   * The `""` branch of `table_path_to_str` is never taken: the root name is
   * always appended, and every table name is non-empty.
   */
  lemma TableNameNonEmpty(root: string, tablePath: seq<JsonPath>)
    ensures |TableName(root, tablePath)| > 0
  {
    var names := JsonPathNames(Reversed(tablePath) + [[root]]);
    assert |names[0]| > 0 by {
      assert names[0] == EscapeIdPrefix(NestedKeyJoined((Reversed(tablePath) + [[root]])[0]));
      NestedKeyJoinedNonEmpty((Reversed(tablePath) + [[root]])[0]);
    }
    TablePathNonEmpty(names);
  }

  lemma NestedKeyJoinedNonEmpty(key: seq<string>)
    ensures |NestedKeyJoined(key)| > 0
  {
  }

  /** Inside a list the own and the parent id columns are two different columns. */
  lemma IdColumnsDistinct(root: string, loc: TableLocation)
    requires |loc.tablePath| > 0
    ensures "id_" + TableName(root, loc.tablePath) != "id_" + TableName(root, loc.ParentTablePath())
  {
    TableNameOfNested(root, loc.tablePath);
    assert TableLocation(loc.tablePath, 0, 0).ParentTablePath() == loc.ParentTablePath();
    assert |TableName(root, loc.tablePath)| > |TableName(root, loc.ParentTablePath())|;
  }

  /** The column names of the record's paths. */
  function ValueColumns(rec: TableRecord): set<string>
  {
    set p | p in rec :: NestedKeyToStr(p)
  }

  /**
   * `obj` is what `record_to_json` builds for `rec` at `loc`: one column per
   * record path holding that path's value (when two paths share a column
   * name, the value of one of them), the own id column and the parent id
   * column, which at the root is the same column and holds the parent id.
   */
  ghost predicate IsRecordJson(root: string, loc: TableLocation, rec: TableRecord, obj: map<string, JsonValue>)
  {
    var own := "id_" + TableName(root, loc.tablePath);
    var parent := "id_" + TableName(root, loc.ParentTablePath());
    obj.Keys == ValueColumns(rec) + {own, parent}
    && (forall k :: k in obj && k != own && k != parent ==> exists p :: p in rec && NestedKeyToStr(p) == k && obj[k] == rec[p])
    && (own != parent ==> obj[own] == Int(loc.objectId))
    && obj[parent] == Int(loc.parentObjectId)
  }

  /**
   * `record_to_json`: inserts every record entry under its column name, in
   * the map's (unspecified) order, then the own id and the parent id.
   */
  method RecordToJson(root: string, loc: TableLocation, rec: TableRecord) returns (obj: map<string, JsonValue>)
    ensures IsRecordJson(root, loc, rec, obj)
    ensures forall p :: p in rec ==> NestedKeyToStr(p) in obj
  {
    obj := map[];
    var remaining := rec.Keys;
    ghost var done: set<JsonPath> := {};
    while remaining != {}
      invariant remaining <= rec.Keys && done == rec.Keys - remaining
      invariant obj.Keys == set p | p in done :: NestedKeyToStr(p)
      invariant forall k :: k in obj ==> exists p :: p in done && NestedKeyToStr(p) == k && obj[k] == rec[p]
      decreases remaining
    {
      var path :| path in remaining;
      obj := obj[NestedKeyToStr(path) := rec[path]];
      remaining := remaining - {path};
      done := done + {path};
    }
    assert done == rec.Keys;
    ghost var values := obj;
    var tableName := TableName(root, loc.tablePath);
    obj := obj["id_" + tableName := Int(loc.objectId)];
    var parentTable := TableName(root, loc.ParentTablePath());
    obj := obj["id_" + parentTable := Int(loc.parentObjectId)];
    forall k | k in obj && k != "id_" + tableName && k != "id_" + parentTable
      ensures exists p :: p in rec && NestedKeyToStr(p) == k && obj[k] == rec[p]
    {
      assert k in values;
    }
  }

  /** No value column begins with `id_`, so no value is overwritten by an id. */
  lemma ValueColumnsAreNotIds(rec: TableRecord, k: string)
    requires k in ValueColumns(rec)
    ensures !StartsWith(k, "id_")
  {
    var p :| p in rec && NestedKeyToStr(p) == k;
    NestedKeyNotIdPrefixed(p);
  }

  /**
   * When the record's paths have distinct column names, every path's
   * value reaches the JSON object unchanged, and inside a list the object
   * carries the record's own id.
   */
  lemma RecordJsonValues(root: string, loc: TableLocation, rec: TableRecord, obj: map<string, JsonValue>, p: JsonPath)
    requires IsRecordJson(root, loc, rec, obj)
    requires forall q, r :: q in rec && r in rec && q != r ==> NestedKeyToStr(q) != NestedKeyToStr(r)
    requires p in rec
    ensures NestedKeyToStr(p) in obj && obj[NestedKeyToStr(p)] == rec[p]
    ensures |loc.tablePath| > 0 ==> obj["id_" + TableName(root, loc.tablePath)] == Int(loc.objectId)
  {
    var k := NestedKeyToStr(p);
    assert k in ValueColumns(rec);
    ValueColumnsAreNotIds(rec, k);
    assert StartsWith("id_" + TableName(root, loc.tablePath), "id_");
    assert StartsWith("id_" + TableName(root, loc.ParentTablePath()), "id_");
    var q :| q in rec && NestedKeyToStr(q) == k && obj[k] == rec[q];
    if |loc.tablePath| > 0 {
      IdColumnsDistinct(root, loc);
    }
  }

  /** At the root the two id columns coincide and the parent id, written last, is what stays. */
  lemma RootRecordIds(root: string, loc: TableLocation, rec: TableRecord, obj: map<string, JsonValue>)
    requires IsRecordJson(root, loc, rec, obj) && loc.tablePath == []
    ensures obj.Keys == ValueColumns(rec) + {"id_" + TableName(root, [])}
    ensures obj["id_" + TableName(root, [])] == Int(loc.parentObjectId)
  {
  }

  /** Writes records into the tables of a JSON object owned by the caller. */
  class DatabaseJson {
    const rootName: string
    const target: JsonCell

    constructor (rootName: string, target: JsonCell)
      ensures this.rootName == rootName && this.target == target
    {
      this.rootName := rootName;
      this.target := target;
    }

    /**
     * Appends the record's JSON object to its table's array, creating the
     * array when the table is new. A target that is not an object, or a
     * table key holding something else than an array, makes
     * `DatabaseJson::write` panic: then `ok` is false and the target is unchanged.
     */
    method Write(loc: TableLocation, rec: TableRecord) returns (ok: bool)
      modifies target
      ensures var name := TableName(rootName, loc.tablePath);
        ok <==> old(target.value).Object? && (name !in old(target.value).fields || old(target.value).fields[name].Array?)
      ensures !ok ==> target.value == old(target.value)
      ensures ok ==> exists row :: (IsRecordJson(rootName, loc, rec, row)
        && target.value == Object(PushToTable(old(target.value).fields, TableName(rootName, loc.tablePath), Object(row)).value))
    {
      var tableName := TableName(rootName, loc.tablePath);
      if !target.value.Object? {
        return false;
      }
      var obj := target.value.fields;
      if tableName !in obj {
        obj := obj[tableName := Array([])];
      }
      if !obj[tableName].Array? {
        return false;
      }
      var row := RecordToJson(rootName, loc, rec);
      var updated := obj[tableName := Array(obj[tableName].items + [Object(row)])];
      PushAfterInsert(target.value.fields, obj, tableName, Object(row));
      target.value := Object(updated);
      ok := true;
    }
  }
}
