/// The CSV sink of src/database/database_csv.rs: one CSV file per table,
/// one line per record, columns in schema order. Fields are escaped as in
/// section 2 of RFC 4180, rules 6 and 7: a field holding a double quote, a
/// comma or a line break is enclosed in double quotes, and a double quote
/// inside it is written twice. The files themselves are a string buffer per
/// table here.
module DatabaseCsv {
  import opened Strings
  import opened Models
  import opened Schema

  // ---------------------------------------------------------------------
  // Field escaping
  // ---------------------------------------------------------------------

  /** `s.replace("\"", "\"\"")`: every double quote written twice. */
  function DoubleQuotes(s: string): (r: string)
    ensures |r| >= |s|
  {
    if |s| == 0 then ""
    else (if s[0] == '"' then "\"\"" else [s[0]]) + DoubleQuotes(s[1..])
  }

  /** `csv_field_quote`: the field enclosed in double quotes, inner quotes doubled. */
  function CsvFieldQuote(s: string): (r: string)
    ensures |r| >= 2 && r[0] == '"' && r[|r| - 1] == '"'
  {
    "\"" + DoubleQuotes(s) + "\""
  }

  /** Characters that oblige a field to be quoted. */
  predicate NeedsQuoting(s: string)
  {
    '"' in s || ',' in s || '\n' in s
  }

  /**
   * `csv_field_escape`: the empty string becomes `""`, so that it is not
   * read as a missing value; a field that needs quoting is quoted; any
   * other field is written as it is.
   */
  function CsvFieldEscape(s: string): (r: string)
    ensures |r| > 0
    ensures r[0] == '"' <==> (s == "" || NeedsQuoting(s))
  {
    if |s| == 0 then "\"\""
    else if NeedsQuoting(s) then CsvFieldQuote(s)
    else s
  }

  // ---------------------------------------------------------------------
  // Reading fields back (section 2 of RFC 4180), the partner of the escaping
  // ---------------------------------------------------------------------

  /**
   * The content of a quoted field, read after its opening quote up to the
   * first double quote that is not doubled, with each doubled quote read as
   * one; and what follows the closing quote.
   */
  function ReadQuoted(t: string): (r: (string, string))
    ensures |r.1| <= |t|
    decreases |t|
  {
    if |t| == 0 then ("", "")
    else if t[0] == '"' then
      if |t| > 1 && t[1] == '"' then
        var (c, rest) := ReadQuoted(t[2..]);
        ("\"" + c, rest)
      else ("", t[1..])
    else
      var (c, rest) := ReadQuoted(t[1..]);
      ([t[0]] + c, rest)
  }

  /** An unquoted field: everything up to the next comma or line break. */
  function ReadPlain(t: string): (r: (string, string))
    ensures |r.1| <= |t|
    decreases |t|
  {
    if |t| == 0 || t[0] == ',' || t[0] == '\n' then ("", t)
    else
      var (c, rest) := ReadPlain(t[1..]);
      ([t[0]] + c, rest)
  }

  /** One field and what follows it. An empty unquoted field is a missing value; a quoted one is present. */
  function ReadField(t: string): (r: (Option<string>, string))
    ensures |r.1| <= |t|
  {
    if |t| > 0 && t[0] == '"' then
      var (c, rest) := ReadQuoted(t[1..]);
      (Some(c), rest)
    else
      var (c, rest) := ReadPlain(t);
      (if c == "" then None else Some(c), rest)
  }

  /** The fields of one line, separated by commas. */
  function ReadRow(t: string): seq<Option<string>>
    decreases |t|
  {
    var (f, rest) := ReadField(t);
    if |rest| > 0 && rest[0] == ',' then [f] + ReadRow(rest[1..]) else [f]
  }

  /** What may follow a field: the end of the text, a separator or the end of the line. */
  predicate FieldEnd(rest: string)
  {
    |rest| == 0 || rest[0] == ',' || rest[0] == '\n'
  }

  lemma {:induction false} ReadQuotedDoubled(s: string, rest: string)
    requires FieldEnd(rest)
    ensures ReadQuoted(DoubleQuotes(s) + "\"" + rest) == (s, rest)
    decreases |s|
  {
    var t := DoubleQuotes(s) + "\"" + rest;
    if |s| == 0 {
      assert t == "\"" + rest;
      assert t[1..] == rest;
    } else {
      ReadQuotedDoubled(s[1..], rest);
      var tail := DoubleQuotes(s[1..]) + "\"" + rest;
      if s[0] == '"' {
        assert t == "\"\"" + tail;
        assert t[2..] == tail;
      } else {
        assert t == [s[0]] + tail;
        assert t[1..] == tail;
      }
      assert s == [s[0]] + s[1..];
    }
  }

  lemma {:induction false} ReadPlainText(p: string, rest: string)
    requires ',' !in p && '\n' !in p && FieldEnd(rest)
    ensures ReadPlain(p + rest) == (p, rest)
    decreases |p|
  {
    if |p| == 0 {
      assert p + rest == rest;
    } else {
      assert (p + rest)[1..] == p[1..] + rest;
      ReadPlainText(p[1..], rest);
      assert p == [p[0]] + p[1..];
    }
  }

  /** Every escaped field reads back as the value it escapes, and the reader stops right after it. */
  lemma CsvFieldEscapeRoundTrip(s: string, rest: string)
    requires FieldEnd(rest)
    ensures ReadField(CsvFieldEscape(s) + rest) == (Some(s), rest)
  {
    var e := CsvFieldEscape(s);
    if s == "" {
      assert e + rest == "\"" + ("\"" + rest);
      assert ReadQuoted("\"" + rest) == ("", rest) by {
        assert ("\"" + rest)[1..] == rest;
      }
    } else if NeedsQuoting(s) {
      assert (e + rest)[1..] == DoubleQuotes(s) + "\"" + rest;
      ReadQuotedDoubled(s, rest);
    } else {
      ReadPlainText(s, rest);
    }
  }

  /** A missing value is written as an empty field and read back as missing. */
  lemma MissingFieldRoundTrip(rest: string)
    requires FieldEnd(rest)
    ensures ReadField(rest) == (None, rest)
  {
    assert "" + rest == rest;
    ReadPlainText("", rest);
  }

  /** Stripping the outer quotes and un-doubling gives back what `csv_field_quote` quoted. */
  lemma CsvFieldQuoteRoundTrip(s: string)
    ensures ReadField(CsvFieldQuote(s)) == (Some(s), "")
  {
    assert CsvFieldQuote(s)[1..] == DoubleQuotes(s) + "\"" + "";
    ReadQuotedDoubled(s, "");
  }

  // ---------------------------------------------------------------------
  // Values and rows
  // ---------------------------------------------------------------------

  /**
   * `value_to_str`: null is a missing value, booleans and numbers their
   * text, strings their escaped form; arrays and objects make
   * `value_to_str` panic.
   */
  function ValueToStr(v: JsonValue): (r: Result<Option<string>>)
    ensures r.Err? <==> v.Array? || v.Object?
    ensures r.Ok? ==> (r.value.None? <==> v.Null?)
  {
    match v
    case Null => Ok(None)
    case Bool(b) => Ok(Some(if b then "true" else "false"))
    case Int(i) => Ok(Some(IntToString(i)))
    case Float(text) => Ok(Some(text))
    case Str(s) => Ok(Some(CsvFieldEscape(s)))
    case Array(_) => Err("Arrays are not allowed in record")
    case Object(_) => Err("Objects are not allowed in record")
  }

  /** The text a scalar value stands for in its cell, or nothing for null. */
  function CellText(v: JsonValue): Option<string>
  {
    match v
    case Null => None
    case Bool(b) => Some(if b then "true" else "false")
    case Int(i) => Some(IntToString(i))
    case Float(text) => Some(text)
    case Str(s) => Some(s)
    case Array(_) => None
    case Object(_) => None
  }

  /** Cell text escaped as a field. */
  function EscapeCell(t: Option<string>): Option<string>
  {
    match t
    case None => None
    case Some(s) => Some(CsvFieldEscape(s))
  }

  lemma IntTextPlain(i: int)
    ensures var t := IntToString(i); |t| > 0 && !NeedsQuoting(t)
  {
    var d := NatToString(if i < 0 then -i else i);
    assert forall c :: c in d ==> '0' <= c <= '9';
  }

  /**
   * Every scalar reaches its cell as its text escaped: strings are escaped,
   * and numbers and booleans never need it. A float's printed text is taken
   * as given and must not need quoting.
   */
  lemma ValueToStrEscapes(v: JsonValue)
    requires !v.Array? && !v.Object?
    requires v.Float? ==> |v.text| > 0 && !NeedsQuoting(v.text)
    ensures ValueToStr(v) == Ok(EscapeCell(CellText(v)))
  {
    match v
    case Int(i) => IntTextPlain(i);
    case Bool(b) =>
      assert !NeedsQuoting("true") && !NeedsQuoting("false");
    case _ =>
  }

  function FieldText(v: Option<string>): string
  {
    match v
    case Some(s) => s
    case None => ""
  }

  /** The fields of a row as written: a missing value is an empty field. */
  function FieldTexts(vals: seq<Option<string>>): (r: seq<string>)
    ensures |r| == |vals|
    ensures forall i :: 0 <= i < |vals| ==> r[i] == FieldText(vals[i])
  {
    if |vals| == 0 then [] else [FieldText(vals[0])] + FieldTexts(vals[1..])
  }

  /** The text of one row: the fields joined by commas, then one line break. */
  function RowLine(vals: seq<Option<string>>): string
  {
    Join(FieldTexts(vals), ",") + "\n"
  }

  /** `t` escaped cell by cell. */
  function EscapeCells(ts: seq<Option<string>>): (r: seq<Option<string>>)
    ensures |r| == |ts|
    ensures forall i :: 0 <= i < |ts| ==> r[i] == EscapeCell(ts[i])
  {
    if |ts| == 0 then [] else [EscapeCell(ts[0])] + EscapeCells(ts[1..])
  }

  lemma CellRoundTrip(t: Option<string>, rest: string)
    requires FieldEnd(rest)
    ensures ReadField(FieldText(EscapeCell(t)) + rest) == (t, rest)
  {
    match t
    case None =>
      assert FieldText(EscapeCell(t)) + rest == rest;
      MissingFieldRoundTrip(rest);
    case Some(s) => CsvFieldEscapeRoundTrip(s, rest);
  }

  /**
   * A written row reads back as the cells it was written from: the same
   * number of fields, each with its text, and missing values told apart
   * from empty strings.
   */
  lemma {:induction false} RowRoundTrip(ts: seq<Option<string>>)
    requires |ts| > 0
    ensures ReadRow(RowLine(EscapeCells(ts))) == ts
    decreases |ts|
  {
    var vals := EscapeCells(ts);
    var first := FieldText(vals[0]);
    if |ts| == 1 {
      assert RowLine(vals) == first + "\n";
      CellRoundTrip(ts[0], "\n");
    } else {
      var tail := RowLine(EscapeCells(ts[1..]));
      assert EscapeCells(ts)[1..] == EscapeCells(ts[1..]);
      assert FieldTexts(vals)[1..] == FieldTexts(vals[1..]);
      assert RowLine(vals) == first + ("," + tail);
      CellRoundTrip(ts[0], "," + tail);
      assert ("," + tail)[1..] == tail;
      RowRoundTrip(ts[1..]);
    }
  }

  /** The value of one column for the record at `loc`. */
  function ColumnValue(col: ColumnSchema, loc: TableLocation, rec: TableRecord): Result<Option<string>>
  {
    match col
    case SourceCol(c) => if c.sourcePath in rec then ValueToStr(rec[c.sourcePath]) else Ok(None)
    case PrimaryKey => Ok(Some(IntToString(loc.objectId)))
    case ForeignKey => Ok(Some(IntToString(loc.parentObjectId)))
  }

  /** The values of all columns, in column order; the first value that cannot be written fails the row. */
  function ColumnValues(cols: seq<ColumnSchema>, loc: TableLocation, rec: TableRecord): (r: Result<seq<Option<string>>>)
    ensures r.Ok? <==> forall i :: 0 <= i < |cols| ==> ColumnValue(cols[i], loc, rec).Ok?
    ensures r.Ok? ==> |r.value| == |cols| && forall i :: 0 <= i < |cols| ==> r.value[i] == ColumnValue(cols[i], loc, rec).value
  {
    if |cols| == 0 then Ok([])
    else
      match ColumnValue(cols[0], loc, rec)
      case Err(e) => Err(e)
      case Ok(v) =>
        match ColumnValues(cols[1..], loc, rec)
        case Err(e) => Err(e)
        case Ok(vs) => Ok([v] + vs)
  }

  /**
   * After the schema took in the record, the row has the record's own id
   * first and its parent's id second, every record value in its path's
   * column, and nothing in the columns of paths the record lacks. It can be
   * written exactly when the record holds no array and no object.
   */
  lemma RowOfUpdatedSchema(ids: map<JsonPath, int>, cols: seq<ColumnSchema>, loc: TableLocation, rec: TableRecord)
    requires Consistent(ids, cols) && rec.Keys <= ids.Keys
    ensures ColumnValues(cols, loc, rec).Ok? <==> forall p :: p in rec ==> !rec[p].Array? && !rec[p].Object?
    ensures ColumnValues(cols, loc, rec).Ok? ==> var row := ColumnValues(cols, loc, rec).value;
      row[0] == Some(IntToString(loc.objectId)) && row[1] == Some(IntToString(loc.parentObjectId))
      && (forall p :: p in rec ==> row[ids[p]] == ValueToStr(rec[p]).value)
      && (forall i :: 2 <= i < |cols| && cols[i].col.sourcePath !in rec ==> row[i] == None)
  {
    if forall p :: p in rec ==> !rec[p].Array? && !rec[p].Object? {
      forall i | 0 <= i < |cols| ensures ColumnValue(cols[i], loc, rec).Ok? {
        if i >= 2 && cols[i].col.sourcePath in rec {
          assert ValueToStr(rec[cols[i].col.sourcePath]).Ok?;
        }
      }
    } else {
      var p :| p in rec && (rec[p].Array? || rec[p].Object?);
      assert cols[ids[p]].col.sourcePath == p;
      assert ColumnValue(cols[ids[p]], loc, rec).Err?;
    }
  }

  // ---------------------------------------------------------------------
  // Tables and the database
  // ---------------------------------------------------------------------

  /** One table's CSV file and the schema lent to it. */
  class TableCsv {
    var schema: Option<TableSchema>
    /** What the table's writer has received so far. */
    var written: string

    constructor (schema: TableSchema)
      ensures this.schema == Some(schema) && written == ""
    {
      this.schema := Some(schema);
      written := "";
    }

    /**
     * `make_columns`: folds the record into the schema, then gives one value
     * per column, in column order. Without a schema, or with an array or
     * object value, `make_columns` panics: the result is an error.
     */
    method MakeColumns(loc: TableLocation, rec: TableRecord) returns (r: Result<seq<Option<string>>>)
      requires schema.Some? ==> schema.value.Valid()
      modifies if schema.Some? then {schema.value} else {}
      ensures schema == old(schema)
      ensures schema.None? ==> r.Err?
      ensures schema.Some? ==> (schema.value.Valid()
        && UpdatedSoFar(old(schema.value.pathToId), old(schema.value.columns), rec, rec.Keys, schema.value.pathToId, schema.value.columns)
        && r == ColumnValues(schema.value.columns, loc, rec))
    {
      if schema.None? {
        return Err("no schema");
      }
      var s := schema.value;
      s.Update(rec);
      r := ColumnValues(s.columns, loc, rec);
    }

    /** `write`: appends the row's fields, joined by commas, and one line break. */
    method Write(loc: TableLocation, rec: TableRecord) returns (ok: bool)
      requires schema.Some? ==> schema.value.Valid()
      modifies this`written, if schema.Some? then {schema.value} else {}
      ensures schema == old(schema)
      ensures ok ==> schema.Some?
      ensures schema.Some? ==> (schema.value.Valid() && (ok <==> ColumnValues(schema.value.columns, loc, rec).Ok?))
      ensures ok ==> written == old(written) + RowLine(ColumnValues(schema.value.columns, loc, rec).value)
      ensures !ok ==> written == old(written)
    {
      var vals := MakeColumns(loc, rec);
      if vals.Err? {
        return false;
      }
      var line := Join(FieldTexts(vals.value), ",");
      written := written + line;
      written := written + "\n";
      ok := true;
    }

    /** Takes the schema back out of the table, leaving none. */
    method PopSchema() returns (r: Option<TableSchema>)
      modifies this`schema
      ensures r == old(schema) && schema == None
    {
      r := schema;
      schema := None;
    }
  }

  /** All tables of one output directory and the registry their schemas come from. */
  class DatabaseCsv {
    const schema: DatabaseSchema
    var tables: map<seq<JsonPath>, TableCsv>
    /** The tables, and the schemas they hold. */
    ghost var Tables: set<TableCsv>
    ghost var Schemas: set<TableSchema>

    /**
     * Every table holds a consistent schema, and no two paths share a
     * table.
     */
    ghost predicate TablesOk()
      reads this, Tables, Schemas
    {
      forall p :: p in tables ==>
        && tables[p] in Tables && tables[p].schema.Some? && tables[p].schema.value in Schemas
        && tables[p].schema.value.path == p && tables[p].schema.value.Valid()
    }

    /**
     * Every table path the registry knows has its table, holding the schema
     * borrowed for it while the registry's slot stays empty.
     */
    ghost predicate Valid()
      reads this, schema, Tables, Schemas
    {
      schema.Valid() && tables.Keys == schema.tablePathToId.Keys == schema.lent && TablesOk()
    }

    constructor (schema: DatabaseSchema)
      requires schema.Valid() && schema.tablePathToId == map[]
      ensures Valid() && this.schema == schema && tables == map[]
    {
      this.schema := schema;
      tables := map[];
      Tables, Schemas := {}, {};
    }

    /**
     * The table of a path, created on first use with the schema borrowed
     * from the registry, which is only ever asked for a path it does not
     * know yet: each path borrows its schema once.
     */
    method GetOrCreateTable(tablePath: seq<JsonPath>) returns (table: TableCsv)
      requires Valid()
      modifies this`tables, this`Tables, this`Schemas, schema
      ensures Valid() && tables == old(tables)[tablePath := table]
      ensures table.schema.Some? && Tables == old(Tables) + {table} && Schemas == old(Schemas) + {table.schema.value}
      ensures tablePath in old(tables) ==> table == old(tables[tablePath])
      ensures tablePath !in old(tables) ==> fresh(table) && fresh(table.schema.value)
      ensures tablePath !in old(tables) ==> table.written == "" && table.schema.value.columns == [PrimaryKey, ForeignKey]
    {
      if tablePath !in tables {
        table := CreateTable(tablePath);
      } else {
        table := tables[tablePath];
      }
    }

    /** Borrows the schema of a path the registry does not know yet and files its table. */
    method CreateTable(tablePath: seq<JsonPath>) returns (table: TableCsv)
      requires Valid() && tablePath !in tables
      modifies this`tables, this`Tables, this`Schemas, schema
      ensures Valid() && tables == old(tables)[tablePath := table]
      ensures table.schema.Some? && Tables == old(Tables) + {table} && Schemas == old(Schemas) + {table.schema.value}
      ensures fresh(table) && fresh(table.schema.value)
      ensures table.written == "" && table.schema.value.columns == [PrimaryKey, ForeignKey]
    {
      var borrowed := schema.BorrowTableSchema(tablePath);
      table := AddTable(tablePath, borrowed.value);
    }

    /** Files a new table for a path, holding the schema just borrowed for it. */
    method AddTable(tablePath: seq<JsonPath>, borrowed: TableSchema) returns (table: TableCsv)
      requires TablesOk() && tablePath !in tables && borrowed.Valid() && borrowed.path == tablePath
      modifies this`tables, this`Tables, this`Schemas
      ensures TablesOk() && Tables == old(Tables) + {table} && Schemas == old(Schemas) + {borrowed}
      ensures tables == old(tables)[tablePath := table] && fresh(table)
      ensures table.written == "" && table.schema == Some(borrowed)
    {
      table := new TableCsv(borrowed);
      tables := tables[tablePath := table];
      Tables, Schemas := Tables + {table}, Schemas + {borrowed};
    }

    /** The table of one path writes the record; every other table keeps what it has written. */
    method WriteTo(tablePath: seq<JsonPath>, loc: TableLocation, rec: TableRecord) returns (ok: bool)
      requires Valid() && tablePath in tables
      modifies Tables, Schemas
      ensures Valid()
      ensures forall p :: p in tables && p != tablePath ==> tables[p].written == old(tables[p].written)
      ensures var t := tables[tablePath];
        (ok <==> ColumnValues(t.schema.value.columns, loc, rec).Ok?)
        && (ok ==> t.written == old(t.written) + RowLine(ColumnValues(t.schema.value.columns, loc, rec).value))
    {
      ok := tables[tablePath].Write(loc, rec);
    }

    /** `write`: the record's row is appended to its table's file. */
    method Write(loc: TableLocation, rec: TableRecord) returns (ok: bool)
      requires Valid()
      modifies this`tables, this`Tables, this`Schemas, schema, Tables, Schemas
      ensures Valid() && loc.tablePath in tables && tables == old(tables)[loc.tablePath := tables[loc.tablePath]]
      ensures var t := tables[loc.tablePath];
        (ok <==> ColumnValues(t.schema.value.columns, loc, rec).Ok?)
        && (ok ==> t.written == (if loc.tablePath in old(tables) then old(tables[loc.tablePath].written) else "")
                                + RowLine(ColumnValues(t.schema.value.columns, loc, rec).value))
    {
      var table := GetOrCreateTable(loc.tablePath);
      ok := WriteTo(loc.tablePath, loc, rec);
    }

    /** One table hands its schema back to the registry's slot for its path. */
    method ReturnSchemaOf(path: seq<JsonPath>, table: TableCsv)
      requires path in tables && tables[path] == table && table.schema.Some?
      requires schema.Valid() && path in schema.lent
      modifies schema`tables, schema`lent, table`schema
      ensures schema.Valid() && schema.lent == old(schema.lent) - {path} && table.schema == None
      ensures schema.tables == old(schema.tables)[schema.tablePathToId[path] := old(table.schema)]
    {
      var popped := table.PopSchema();
      var ok := schema.ReturnTableSchema(path, popped.value);
    }

    /**
     * The tables of `remaining` still hold the schemas recorded in `before`
     * and the registry still lends them out; every other table has handed
     * its schema back to its slot.
     */
    ghost predicate ReturnedExcept(remaining: set<seq<JsonPath>>, before: map<seq<JsonPath>, Option<TableSchema>>)
      reads this, schema, Tables
    {
      && schema.Valid() && schema.lent == remaining && remaining <= tables.Keys <= schema.tablePathToId.Keys && before.Keys == tables.Keys
      && (forall p :: p in tables ==> tables[p] in Tables)
      && (forall p :: p in remaining ==> tables[p].schema == before[p] && before[p].Some? && before[p].value.path == p)
      && (forall p :: p in tables && p !in remaining ==> tables[p].schema == None && schema.tables[schema.tablePathToId[p]] == before[p])
    }

    /** One more table of `remaining` hands its schema back. */
    method ReturnOne(path: seq<JsonPath>, remaining: set<seq<JsonPath>>, ghost before: map<seq<JsonPath>, Option<TableSchema>>)
      requires path in remaining && ReturnedExcept(remaining, before)
      modifies schema`tables, schema`lent, Tables
      ensures ReturnedExcept(remaining - {path}, before) && schema.tablePathToId == old(schema.tablePathToId)
    {
      var table := tables[path];
      assert forall p :: p in tables && p != path ==> tables[p] != table;
      ReturnSchemaOf(path, table);
    }

    /**
     * Every table hands its schema back to the registry, in the map's
     * (unspecified) order: afterwards no schema is lent out.
     */
    method ReturnAll()
      requires schema.Valid() && schema.lent == tables.Keys
      requires forall p :: p in tables ==> tables[p] in Tables && tables[p].schema.Some? && tables[p].schema.value.path == p
      modifies schema`tables, schema`lent, Tables
      ensures schema.Valid() && schema.tablePathToId == old(schema.tablePathToId) && schema.lent == {}
      ensures forall p :: p in tables ==>
        tables[p].schema == None && schema.tables[schema.tablePathToId[p]] == old(tables[p].schema)
    {
      ghost var before := map p | p in tables :: tables[p].schema;
      var remaining := tables.Keys;
      while remaining != {}
        invariant ReturnedExcept(remaining, before) && schema.tablePathToId == old(schema.tablePathToId)
        decreases remaining
      {
        var path :| path in remaining;
        ReturnOne(path, remaining, before);
        remaining := remaining - {path};
      }
    }

    /**
     * `close`: every table hands its schema back to the registry, after
     * which no slot of the registry is empty, so
     * `ensure_all_tables_returned` passes.
     */
    method Close() returns (allReturned: bool)
      requires Valid()
      modifies schema`tables, schema`lent, Tables
      ensures allReturned && schema.Valid() && schema.tablePathToId == old(schema.tablePathToId)
      ensures forall i :: 0 <= i < |schema.tables| ==> schema.tables[i].Some?
      ensures forall p :: p in tables ==> tables[p].schema == None && schema.tables[schema.tablePathToId[p]] == old(tables[p].schema)
    {
      ReturnAll();
      allReturned := schema.EnsureAllTablesReturned();
    }
  }
}
