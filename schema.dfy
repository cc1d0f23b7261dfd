/// Schema inference of src/database/schema.rs: the columns of every table,
/// what kinds of value each column has seen, a few example values, and the
/// table registry whose schemas are lent out to the writers and given back.
module Schema {
  import opened Strings
  import opened Models

  /** What is known about one column that holds values from the record. */
  datatype SourceColumn = SourceColumn(
    sourcePath: JsonPath,
    isNullable: bool,
    isNull: bool,
    isBool: bool,
    isI64: bool,
    isF64: bool,
    exampleValues: seq<JsonValue>)

  datatype ColumnSchema = SourceCol(col: SourceColumn) | PrimaryKey | ForeignKey

  /** The column a path gets when it is first seen: no value seen, every kind still possible. */
  function NewColumn(k: JsonPath): (c: SourceColumn)
    ensures c.sourcePath == k && !c.isNullable && c.exampleValues == []
    ensures c.isNull && c.isBool && c.isI64 && c.isF64
  {
    SourceColumn(k, false, true, true, true, true, [])
  }

  /** At most five examples, none of them null. */
  predicate ExamplesOk(c: SourceColumn)
  {
    |c.exampleValues| <= 5 && forall i :: 0 <= i < |c.exampleValues| ==> c.exampleValues[i] != Null
  }

  /** The column after one more value `v` arrived in it. */
  function Absorb(c: SourceColumn, v: JsonValue): (r: SourceColumn)
    ensures r.sourcePath == c.sourcePath
    ensures r.isNullable <==> c.isNullable || v.Null?
    ensures r.isNull <==> c.isNull && v.Null?
    ensures r.isBool <==> c.isBool && v.Bool?
    ensures r.isI64 <==> c.isI64 && IsI64(v)
    ensures r.isF64 <==> c.isF64 && v.Float?
    ensures |c.exampleValues| < 5 && v != Null ==> r.exampleValues == c.exampleValues + [v]
    ensures !(|c.exampleValues| < 5 && v != Null) ==> r.exampleValues == c.exampleValues
  {
    var examples := if |c.exampleValues| < 5 && !v.Null? then c.exampleValues + [v] else c.exampleValues;
    c.(isNullable := c.isNullable || v.Null?,
       isNull := c.isNull && v.Null?,
       isBool := c.isBool && v.Bool?,
       isI64 := c.isI64 && IsI64(v),
       isF64 := c.isF64 && v.Float?,
       exampleValues := examples)
  }

  /** Flags only move one way: nullable once a null is seen, a kind lost once another value is seen. */
  lemma AbsorbMonotone(c: SourceColumn, v: JsonValue)
    ensures c.isNullable ==> Absorb(c, v).isNullable
    ensures Absorb(c, v).isNull ==> c.isNull
    ensures Absorb(c, v).isBool ==> c.isBool
    ensures Absorb(c, v).isI64 ==> c.isI64
    ensures Absorb(c, v).isF64 ==> c.isF64
    ensures c.exampleValues <= Absorb(c, v).exampleValues
  {
  }

  /** The example values stay at most five and never include a null. */
  lemma AbsorbKeepsExamplesOk(c: SourceColumn, v: JsonValue)
    requires ExamplesOk(c)
    ensures ExamplesOk(Absorb(c, v))
  {
  }

  /** The column after a whole series of values, in arrival order. */
  function AbsorbAll(c: SourceColumn, vs: seq<JsonValue>): SourceColumn
    decreases |vs|
  {
    if |vs| == 0 then c else Absorb(AbsorbAll(c, vs[..|vs| - 1]), vs[|vs| - 1])
  }

  /** Non-null values, in order. */
  function NonNull(vs: seq<JsonValue>): (r: seq<JsonValue>)
    ensures |r| <= |vs|
  {
    if |vs| == 0 then [] else if vs[|vs| - 1] == Null then NonNull(vs[..|vs| - 1]) else NonNull(vs[..|vs| - 1]) + [vs[|vs| - 1]]
  }

  /**
   * From a new column the examples are the first five non-null values that
   * arrived, in arrival order; the column is null-typed exactly while only
   * nulls arrived, and nullable exactly when some null arrived.
   */
  lemma {:induction false} AbsorbAllExamples(k: JsonPath, vs: seq<JsonValue>)
    ensures var c := AbsorbAll(NewColumn(k), vs);
      c.exampleValues == (if |NonNull(vs)| <= 5 then NonNull(vs) else NonNull(vs)[..5])
    ensures var c := AbsorbAll(NewColumn(k), vs);
      c.isNull <==> (forall i :: 0 <= i < |vs| ==> vs[i] == Null)
    ensures var c := AbsorbAll(NewColumn(k), vs);
      c.isNullable <==> (exists i :: 0 <= i < |vs| && vs[i] == Null)
    decreases |vs|
  {
    if |vs| > 0 {
      var init := vs[..|vs| - 1];
      AbsorbAllExamples(k, init);
      var n := NonNull(init);
      if |n| > 5 {
        assert n[..5] == (n + [vs[|vs| - 1]])[..5];
      }
      assert forall i :: 0 <= i < |init| ==> init[i] == vs[i];
      if vs[|vs| - 1] == Null {
        assert exists i :: 0 <= i < |vs| && vs[i] == Null by {
          assert vs[|vs| - 1] == Null;
        }
      } else {
        assert (exists i :: 0 <= i < |vs| && vs[i] == Null) ==> (exists i :: 0 <= i < |init| && init[i] == Null);
      }
    }
  }

  /** The column `k` had before the update, or the column it starts with. */
  function BaseColumn(oldPathToId: map<JsonPath, int>, oldColumns: seq<ColumnSchema>, k: JsonPath): SourceColumn
  {
    if k in oldPathToId && 0 <= oldPathToId[k] < |oldColumns| && oldColumns[oldPathToId[k]].SourceCol?
    then oldColumns[oldPathToId[k]].col
    else NewColumn(k)
  }

  /**
   * The id columns come first; every later column holds values of one
   * source path, and the index map finds exactly those columns.
   */
  predicate Consistent(ids: map<JsonPath, int>, cols: seq<ColumnSchema>)
  {
    |cols| >= 2 && cols[0] == PrimaryKey && cols[1] == ForeignKey
    && (forall i :: 2 <= i < |cols| ==> cols[i].SourceCol? && ExamplesOk(cols[i].col))
    && (forall i :: 2 <= i < |cols| ==> cols[i].col.sourcePath in ids && ids[cols[i].col.sourcePath] == i)
    && (forall k :: k in ids ==> 2 <= ids[k] < |cols| && cols[ids[k]].SourceCol? && cols[ids[k]].col.sourcePath == k)
  }

  /** A new path's column appended at the end, and indexed, keeps the schema consistent. */
  lemma ConsistentAfterNew(ids: map<JsonPath, int>, cols: seq<ColumnSchema>, k: JsonPath)
    requires Consistent(ids, cols) && k !in ids
    ensures Consistent(ids[k := |cols|], cols + [SourceCol(NewColumn(k))])
  {
    var ids1, cols1 := ids[k := |cols|], cols + [SourceCol(NewColumn(k))];
    forall i | 2 <= i < |cols1|
      ensures cols1[i].col.sourcePath in ids1 && ids1[cols1[i].col.sourcePath] == i
    {
      if i < |cols| {
        assert cols1[i] == cols[i];
      }
    }
  }

  /** Folding a value into a source column keeps the schema consistent. */
  lemma ConsistentAfterAbsorb(ids: map<JsonPath, int>, cols: seq<ColumnSchema>, i: int, c: SourceColumn, v: JsonValue)
    requires Consistent(ids, cols) && 2 <= i < |cols| && cols[i] == SourceCol(c)
    ensures Consistent(ids, cols[i := SourceCol(Absorb(c, v))])
  {
    AbsorbKeepsExamplesOk(c, v);
  }

  /** The columns of one table and where each source path's column is. */
  class TableSchema {
    var pathToId: map<JsonPath, int>
    /** Ordered columns: the two id columns, then one per source path. */
    var columns: seq<ColumnSchema>
    const name: string
    const path: seq<JsonPath>

    predicate Valid()
      reads this`pathToId, this`columns
    {
      Consistent(pathToId, columns)
    }

    /** `empty_with_ids`: a table with only its own and its parent's id column. */
    constructor EmptyWithIds(name: string, path: seq<JsonPath>)
      ensures Valid()
      ensures this.name == name && this.path == path
      ensures columns == [PrimaryKey, ForeignKey] && pathToId == map[]
    {
      this.name := name;
      this.path := path;
      pathToId := map[];
      columns := [PrimaryKey];
      columns := columns + [ForeignKey];
    }

    /** One entry of the record: find or append the path's column, then fold the value in. */
    method AbsorbEntry(k: JsonPath, v: JsonValue)
      requires Valid()
      modifies this`pathToId, this`columns
      ensures Valid()
      ensures k in old(pathToId) ==> pathToId == old(pathToId)
      ensures k in old(pathToId) ==> columns == old(columns)[old(pathToId)[k] := SourceCol(Absorb(BaseColumn(old(pathToId), old(columns), k), v))]
      ensures k !in old(pathToId) ==> pathToId == old(pathToId)[k := |old(columns)|]
      ensures k !in old(pathToId) ==> columns == old(columns) + [SourceCol(Absorb(NewColumn(k), v))]
    {
      if k !in pathToId {
        ConsistentAfterNew(pathToId, columns, k);
        AddColumn(SourceCol(NewColumn(k)));
        pathToId := pathToId[k := |columns| - 1];
      }
      var colId := pathToId[k];
      match columns[colId] {
        case SourceCol(c) =>
          ConsistentAfterAbsorb(pathToId, columns, colId, c, v);
          columns := columns[colId := SourceCol(Absorb(c, v))];
        case PrimaryKey =>
        case ForeignKey =>
      }
    }

    method AddColumn(col: ColumnSchema)
      modifies this`columns
      ensures columns == old(columns) + [col]
    {
      columns := columns + [col];
    }

    /** One iteration of `update`: the entry `k` of `rec` joins the entries already folded in. */
    method UpdateEntry(rec: TableRecord, k: JsonPath, ghost ids0: map<JsonPath, int>, ghost cols0: seq<ColumnSchema>, ghost done: set<JsonPath>)
      requires Valid() && k in rec && k !in done
      requires UpdatedSoFar(ids0, cols0, rec, done, pathToId, columns)
      modifies this`pathToId, this`columns
      ensures Valid()
      ensures UpdatedSoFar(ids0, cols0, rec, done + {k}, pathToId, columns)
    {
      ghost var ids, cols := pathToId, columns;
      AbsorbEntry(k, rec[k]);
      EntryStep(ids, cols, k, rec[k], pathToId, columns);
      UpdateStep(ids0, cols0, rec, done, ids, cols, k, pathToId, columns);
    }

    /**
     * Folds a record into the schema, entry by entry in the map's (unspecified)
     * order: every path of the record has a column afterwards, holding what
     * it had plus the record's value; other columns and positions stay.
     */
    method Update(rec: TableRecord)
      requires Valid()
      modifies this`pathToId, this`columns
      ensures Valid()
      ensures UpdatedSoFar(old(pathToId), old(columns), rec, rec.Keys, pathToId, columns)
    {
      ghost var ids0, cols0 := pathToId, columns;
      ghost var done: set<JsonPath> := {};
      var remaining := rec.Keys;
      while remaining != {}
        invariant Valid()
        invariant remaining <= rec.Keys && done == rec.Keys - remaining
        invariant UpdatedSoFar(ids0, cols0, rec, done, pathToId, columns)
        decreases remaining
      {
        var k :| k in remaining;
        UpdateEntry(rec, k, ids0, cols0, done);
        remaining := remaining - {k};
        done := done + {k};
      }
    }
  }

  /**
   * After the entries `done` of `rec` were folded into the schema that had
   * paths `ids0` and columns `cols0`: those paths have their absorbed
   * columns, every other old path its old column, and old positions stay.
   */
  ghost predicate UpdatedSoFar(ids0: map<JsonPath, int>, cols0: seq<ColumnSchema>, rec: TableRecord, done: set<JsonPath>,
                               ids: map<JsonPath, int>, cols: seq<ColumnSchema>)
  {
    ids.Keys == ids0.Keys + done
    && (forall k :: k in ids0 ==> ids[k] == ids0[k])
    && |cols| >= |cols0|
    && (forall k :: k in done ==> k in rec && 0 <= ids[k] < |cols| && cols[ids[k]] == SourceCol(Absorb(BaseColumn(ids0, cols0, k), rec[k])))
    && (forall k :: k in ids0 && k !in done ==> 0 <= ids0[k] < |cols0| && cols[ids0[k]] == cols0[ids0[k]])
  }

  /** What one `AbsorbEntry` means for the paths it did not touch and the one it did. */
  lemma EntryStep(ids: map<JsonPath, int>, cols: seq<ColumnSchema>, k: JsonPath, v: JsonValue,
                  ids1: map<JsonPath, int>, cols1: seq<ColumnSchema>)
    requires Consistent(ids, cols)
    requires k in ids ==> ids1 == ids && cols1 == cols[ids[k] := SourceCol(Absorb(BaseColumn(ids, cols, k), v))]
    requires k !in ids ==> ids1 == ids[k := |cols|] && cols1 == cols + [SourceCol(Absorb(NewColumn(k), v))]
    ensures k in ids1 && 0 <= ids1[k] < |cols1| && cols1[ids1[k]] == SourceCol(Absorb(BaseColumn(ids, cols, k), v))
    ensures forall j :: j in ids && j != k ==> j in ids1 && ids1[j] == ids[j] && 0 <= ids[j] < |cols| <= |cols1| && cols1[ids[j]] == cols[ids[j]]
    ensures |cols1| >= |cols| && ids1.Keys == ids.Keys + {k} && (k in ids ==> ids1[k] == ids[k])
  {
  }

  lemma UpdateStep(ids0: map<JsonPath, int>, cols0: seq<ColumnSchema>, rec: TableRecord, done: set<JsonPath>,
                   ids: map<JsonPath, int>, cols: seq<ColumnSchema>, k: JsonPath,
                   ids1: map<JsonPath, int>, cols1: seq<ColumnSchema>)
    requires UpdatedSoFar(ids0, cols0, rec, done, ids, cols)
    requires k in rec && k !in done
    requires k in ids1 && 0 <= ids1[k] < |cols1| && cols1[ids1[k]] == SourceCol(Absorb(BaseColumn(ids, cols, k), rec[k]))
    requires forall j :: j in ids && j != k ==> j in ids1 && ids1[j] == ids[j] && 0 <= ids[j] < |cols| <= |cols1| && cols1[ids[j]] == cols[ids[j]]
    requires |cols1| >= |cols| && ids1.Keys == ids.Keys + {k} && (k in ids ==> ids1[k] == ids[k])
    ensures UpdatedSoFar(ids0, cols0, rec, done + {k}, ids1, cols1)
  {
    UntouchedStep(ids0, cols0, rec, done, ids, cols, k, ids1, cols1);
    AbsorbedStep(ids0, cols0, rec, done, ids, cols, k, ids1, cols1);
  }

  /** The old paths keep their positions, and the old paths not folded yet their columns. */
  lemma UntouchedStep(ids0: map<JsonPath, int>, cols0: seq<ColumnSchema>, rec: TableRecord, done: set<JsonPath>,
                      ids: map<JsonPath, int>, cols: seq<ColumnSchema>, k: JsonPath,
                      ids1: map<JsonPath, int>, cols1: seq<ColumnSchema>)
    requires UpdatedSoFar(ids0, cols0, rec, done, ids, cols)
    requires k in rec && k !in done
    requires forall j :: j in ids && j != k ==> j in ids1 && ids1[j] == ids[j] && 0 <= ids[j] < |cols| <= |cols1| && cols1[ids[j]] == cols[ids[j]]
    requires |cols1| >= |cols| && ids1.Keys == ids.Keys + {k} && (k in ids ==> ids1[k] == ids[k])
    ensures ids1.Keys == ids0.Keys + (done + {k}) && |cols1| >= |cols0|
    ensures forall j :: j in ids0 ==> ids1[j] == ids0[j]
    ensures forall j :: j in ids0 && j !in done + {k} ==> 0 <= ids0[j] < |cols0| && cols1[ids0[j]] == cols0[ids0[j]]
  {
    forall j | j in ids0
      ensures ids1[j] == ids0[j]
    {
      assert j in ids;
    }
    forall j | j in ids0 && j !in done + {k}
      ensures 0 <= ids0[j] < |cols0| && cols1[ids0[j]] == cols0[ids0[j]]
    {
      assert j in ids && ids[j] == ids0[j];
    }
  }

  /** The paths folded so far, now with `k`, hold their absorbed columns. */
  lemma AbsorbedStep(ids0: map<JsonPath, int>, cols0: seq<ColumnSchema>, rec: TableRecord, done: set<JsonPath>,
                     ids: map<JsonPath, int>, cols: seq<ColumnSchema>, k: JsonPath,
                     ids1: map<JsonPath, int>, cols1: seq<ColumnSchema>)
    requires UpdatedSoFar(ids0, cols0, rec, done, ids, cols)
    requires k in rec && k !in done
    requires k in ids1 && 0 <= ids1[k] < |cols1| && cols1[ids1[k]] == SourceCol(Absorb(BaseColumn(ids, cols, k), rec[k]))
    requires forall j :: j in ids && j != k ==> j in ids1 && ids1[j] == ids[j] && 0 <= ids[j] < |cols| <= |cols1| && cols1[ids[j]] == cols[ids[j]]
    ensures forall j :: j in done + {k} ==>
      j in rec && 0 <= ids1[j] < |cols1| && cols1[ids1[j]] == SourceCol(Absorb(BaseColumn(ids0, cols0, j), rec[j]))
  {
    assert BaseColumn(ids, cols, k) == BaseColumn(ids0, cols0, k) by {
      if k in ids0 {
        assert ids[k] == ids0[k];
      } else {
        assert k !in ids;
      }
    }
    forall j | j in done + {k}
      ensures j in rec && 0 <= ids1[j] < |cols1| && cols1[ids1[j]] == SourceCol(Absorb(BaseColumn(ids0, cols0, j), rec[j]))
    {
      if j != k {
        assert j in done && j in ids;
      }
    }
  }

  /** The registry of all tables; a schema lent out leaves `None` in its slot. */
  class DatabaseSchema {
    var tablePathToId: map<seq<JsonPath>, int>
    var tables: seq<Option<TableSchema>>
    /** The table path of every slot: the inverse of `tablePathToId`, kept for the proofs. */
    ghost var pathOf: seq<seq<JsonPath>>
    /** The table paths whose schema is lent out: their slot is empty. */
    ghost var lent: set<seq<JsonPath>>

    /** Table ids are the slots 0 .. n-1, exactly one per known table path. */
    ghost predicate Valid()
      reads this
    {
      |pathOf| == |tables|
      && (forall p :: p in tablePathToId ==> 0 <= tablePathToId[p] < |tables| && pathOf[tablePathToId[p]] == p)
      && (forall i :: 0 <= i < |pathOf| ==> pathOf[i] in tablePathToId && tablePathToId[pathOf[i]] == i)
      && lent <= tablePathToId.Keys
      && (forall p :: p in tablePathToId ==> (p in lent <==> tables[tablePathToId[p]] == None))
    }

    constructor Empty()
      ensures Valid() && tablePathToId == map[] && tables == []
    {
      tablePathToId := map[];
      tables := [];
      pathOf := [];
      lent := {};
    }

    /**
     * Lends out the schema of a table path. A known path hands out what its
     * slot holds and leaves `None` there. A new path gets the next id, the
     * name `table_<id>`, an empty schema and an empty slot.
     */
    method BorrowTableSchema(path: seq<JsonPath>) returns (r: Option<TableSchema>)
      requires Valid()
      modifies this`tablePathToId, this`tables, this`pathOf, this`lent
      ensures Valid()
      ensures path in old(tablePathToId) ==> tablePathToId == old(tablePathToId)
      ensures path in old(tablePathToId) ==> r == old(tables)[tablePathToId[path]] && tables == old(tables)[tablePathToId[path] := None]
      ensures path !in old(tablePathToId) ==> tablePathToId == old(tablePathToId)[path := |old(tables)|] && tables == old(tables) + [None]
      ensures path !in old(tablePathToId) ==> r.Some? && fresh(r.value) && r.value.Valid()
      ensures path !in old(tablePathToId) ==> r.value.name == "table_" + NatToString(|old(tables)|) && r.value.path == path
      ensures path !in old(tablePathToId) ==> r.value.columns == [PrimaryKey, ForeignKey] && r.value.pathToId == map[]
      ensures lent == old(lent) + {path}
    {
      if path in tablePathToId {
        var tId := tablePathToId[path];
        r := tables[tId];
        tables := tables[tId := None];
        lent := lent + {path};
      } else {
        var tableId := |tables|;
        tablePathToId := tablePathToId[path := tableId];
        pathOf := pathOf + [path];
        var schema := new TableSchema.EmptyWithIds("table_" + NatToString(tableId), path);
        tables := tables + [None];
        lent := lent + {path};
        r := Some(schema);
        forall p | p in old(tablePathToId)
          ensures tablePathToId[p] == old(tablePathToId)[p] && tables[tablePathToId[p]] == old(tables)[old(tablePathToId)[p]]
        {
          assert p != path;
        }
      }
    }

    /** Puts a schema back into its slot; `return_table_schema` panics on a path it never lent out. */
    method ReturnTableSchema(path: seq<JsonPath>, schema: TableSchema) returns (ok: bool)
      requires Valid()
      modifies this`tables, this`lent
      ensures Valid()
      ensures ok <==> path in tablePathToId
      ensures ok ==> tables == old(tables)[tablePathToId[path] := Some(schema)]
      ensures !ok ==> tables == old(tables)
      ensures lent == old(lent) - {path}
    {
      if path !in tablePathToId {
        return false;
      }
      var tableId := tablePathToId[path];
      tables := tables[tableId := Some(schema)];
      lent := lent - {path};
      ok := true;
    }

    /** `ensure_all_tables_returned`: fails (it panics) exactly when a slot is empty. */
    method EnsureAllTablesReturned() returns (ok: bool)
      ensures ok <==> forall i :: 0 <= i < |tables| ==> tables[i].Some?
      ensures Valid() ==> (ok <==> lent == {})
    {
      var i := 0;
      while i < |tables|
        invariant 0 <= i <= |tables|
        invariant forall j :: 0 <= j < i ==> tables[j].Some?
      {
        if tables[i].None? {
          if Valid() {
            assert pathOf[i] in lent;
          }
          return false;
        }
        i := i + 1;
      }
      return true;
    }
  }

  /** Without a return in between, borrowing the same path twice gives nothing the second time. */
  method BorrowTwice(db: DatabaseSchema, path: seq<JsonPath>) returns (first: Option<TableSchema>, second: Option<TableSchema>)
    requires db.Valid()
    modifies db
    ensures db.Valid() && second == None
  {
    first := db.BorrowTableSchema(path);
    second := db.BorrowTableSchema(path);
  }
}
