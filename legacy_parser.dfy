/// The older streaming flattener of src/parser.rs. It keeps one open object
/// per enclosing list on `listStack`, numbers the elements of every list and
/// hands each finished object, named by its list path, to a consumer.
module LegacyParser {
  import opened Strings
  import opened Models
  import opened Naming

  /** A flat object: column name to value. */
  type FlatObject = map<string, JsonValue>

  /** What an enclosing list had open when the inner list started. */
  datatype ListStackElement = ListStackElement(obj: FlatObject, objectId: int, nestedKey: seq<string>)

  /** Column names of the nested keys on the stack, outermost list first. */
  function KeyNames(stack: seq<ListStackElement>): (r: seq<string>)
    ensures |r| == |stack|
  {
    if |stack| == 0 then [] else KeyNames(stack[..|stack| - 1]) + [NestedKeyToStr(stack[|stack| - 1].nestedKey)]
  }

  /**
   * Table name of the innermost open list: its key's name, `_lin_`, and the
   * name of the enclosing list, down to the escaped root name.
   */
  function ListPathOf(stack: seq<ListStackElement>, root: string): string
    decreases |stack|
  {
    if |stack| == 0 then EscapeTablePathElement(root)
    else EscapeTablePathElement(NestedKeyToStr(stack[|stack| - 1].nestedKey)) + "_lin_" + ListPathOf(stack[..|stack| - 1], root)
  }

  /** Table name of the list enclosing the innermost one (the root's own name at the top). */
  function ParentListPathOf(stack: seq<ListStackElement>, root: string): string
  {
    ListPathOf(DropLast(stack), root)
  }

  /**
   * The list path is what `current_list_path` joins: the key names,
   * innermost first, followed by the root name, through `table_path_to_str`.
   */
  lemma {:induction false} ListPathOfJoined(stack: seq<ListStackElement>, root: string)
    ensures ListPathOf(stack, root) == TablePathToStr(Reversed(KeyNames(stack)) + [root])
  {
    if |stack| == 0 {
      assert Reversed(KeyNames(stack)) + [root] == [root] by {
        assert KeyNames(stack) == [];
      }
    } else {
      var s := stack[..|stack| - 1];
      var n := NestedKeyToStr(stack[|stack| - 1].nestedKey);
      var rest := Reversed(KeyNames(s)) + [root];
      var names := Reversed(KeyNames(stack)) + [root];
      assert names == [n] + rest by {
        NamesOfPushed(s, stack[|stack| - 1], stack, root);
      }
      assert ListPathOf(s, root) == TablePathToStr(rest) by {
        ListPathOfJoined(s, root);
      }
      JoinedStep(ListPathOf(stack, root), ListPathOf(s, root), n, rest, names);
    }
  }

  lemma JoinedStep(path: string, inner: string, n: string, rest: seq<string>, names: seq<string>)
    requires path == EscapeTablePathElement(n) + "_lin_" + inner
    requires inner == TablePathToStr(rest) && |rest| > 0
    requires names == [n] + rest
    ensures path == TablePathToStr(names)
  {
    TablePathCons(n, rest);
  }

  lemma NamesOfPushed(s: seq<ListStackElement>, e: ListStackElement, stack: seq<ListStackElement>, root: string)
    requires stack == s + [e]
    ensures Reversed(KeyNames(stack)) + [root] == [NestedKeyToStr(e.nestedKey)] + (Reversed(KeyNames(s)) + [root])
  {
    var n := NestedKeyToStr(e.nestedKey);
    assert KeyNames(stack) == KeyNames(s) + [n];
    ReversedAppend(KeyNames(s), n);
  }

  /** `parent_list_path` drops the innermost key name before joining. */
  lemma ParentListPathOfJoined(stack: seq<ListStackElement>, root: string)
    ensures ParentListPathOf(stack, root) == TablePathToStr(Reversed(DropLast(KeyNames(stack))) + [root])
  {
    ListPathOfJoined(DropLast(stack), root);
    assert KeyNames(DropLast(stack)) == DropLast(KeyNames(stack));
  }

  /** The parent of a list entered from `stack` is the current list of `stack`. */
  lemma ParentOfPushed(stack: seq<ListStackElement>, e: ListStackElement, root: string)
    ensures ParentListPathOf(stack + [e], root) == ListPathOf(stack, root)
  {
    assert DropLast(stack + [e]) == stack;
  }

  /** At the document root the table is the escaped root name, and is its own parent. */
  lemma ListPathOfRoot(root: string)
    ensures ListPathOf([], root) == EscapeTablePathElement(root)
    ensures ParentListPathOf([], root) == EscapeTablePathElement(root)
  {
  }

  /** Inside a list the two id columns of a published object are different columns. */
  lemma IdColumnsDistinct(stack: seq<ListStackElement>, root: string)
    requires |stack| > 0
    ensures "id_" + ListPathOf(stack, root) != "id_" + ParentListPathOf(stack, root)
  {
    assert |ListPathOf(stack, root)| > |ParentListPathOf(stack, root)|;
  }

  /** No column of a value starts with `id_`, so none collides with an id column. */
  predicate ValueColumnsOnly(obj: FlatObject)
  {
    forall k :: k in obj ==> !StartsWith(k, "id_")
  }

  /** The object `publish_object` hands to the consumer: `obj` with its id columns. */
  function PublishedObject(obj: FlatObject, stack: seq<ListStackElement>, root: string, id: int): FlatObject
  {
    var withId := obj["id_" + ListPathOf(stack, root) := Int(id)];
    if |stack| > 0 then withId["id_" + ParentListPathOf(stack, root) := Int(stack[|stack| - 1].objectId)]
    else withId
  }

  /** The row's own id sits in its table's id column, the parent's id in the parent's. */
  lemma PublishedObjectIds(obj: FlatObject, stack: seq<ListStackElement>, root: string, id: int)
    ensures var r := PublishedObject(obj, stack, root, id);
      "id_" + ListPathOf(stack, root) in r && r["id_" + ListPathOf(stack, root)] == Int(id)
    ensures var r := PublishedObject(obj, stack, root, id);
      |stack| > 0 ==> "id_" + ParentListPathOf(stack, root) in r && r["id_" + ParentListPathOf(stack, root)] == Int(stack[|stack| - 1].objectId)
  {
    if |stack| > 0 {
      IdColumnsDistinct(stack, root);
    }
  }

  /** Publishing adds one id column at the root and two inside a list, and nothing else. */
  lemma PublishedObjectColumns(obj: FlatObject, stack: seq<ListStackElement>, root: string, id: int)
    ensures |stack| > 0 ==> PublishedObject(obj, stack, root, id).Keys
                            == obj.Keys + {"id_" + ListPathOf(stack, root), "id_" + ParentListPathOf(stack, root)}
    ensures |stack| == 0 ==> PublishedObject(obj, stack, root, id).Keys == obj.Keys + {"id_" + ListPathOf(stack, root)}
  {
  }

  /** The values collected for the row reach the consumer unchanged. */
  lemma PublishedObjectKeepsValues(obj: FlatObject, stack: seq<ListStackElement>, root: string, id: int, k: string)
    requires ValueColumnsOnly(obj) && k in obj
    ensures k in PublishedObject(obj, stack, root, id) && PublishedObject(obj, stack, root, id)[k] == obj[k]
  {
    assert !StartsWith(k, "id_");
    assert StartsWith("id_" + ListPathOf(stack, root), "id_");
    assert StartsWith("id_" + ParentListPathOf(stack, root), "id_");
  }

  class NestedObjectHandler {
    const rootName: string
    var listStack: seq<ListStackElement>
    var currentNestedKey: seq<string>
    var currentObjectId: int
    var currentObject: FlatObject
    /** Next id of each list path, saved whenever a list is entered or left. */
    var arrayIds: map<string, int>
    /** Every call of the consumer, in order: table name and object. */
    var published: seq<(string, FlatObject)>

    /** Objects under construction hold value columns only. */
    predicate Valid()
      reads this`currentObject, this`listStack
    {
      ValueColumnsOnly(currentObject)
      && forall i :: 0 <= i < |listStack| ==> ValueColumnsOnly(listStack[i].obj)
    }

    constructor (rootName: string, rootId: int)
      ensures Valid()
      ensures this.rootName == rootName && currentObjectId == rootId
      ensures listStack == [] && currentNestedKey == [] && currentObject == map[]
      ensures arrayIds == map[] && published == []
    {
      this.rootName := rootName;
      listStack := [];
      currentNestedKey := [];
      currentObject := map[];
      currentObjectId := rootId;
      arrayIds := map[];
      published := [];
    }

    predicate AtListOrDocumentRoot()
      reads this`currentNestedKey
    {
      |currentNestedKey| == 0
    }

    /** Stores `value` under the column of the current nested key. */
    method HandleJsonValue(value: JsonValue)
      requires Valid()
      modifies this
      ensures Valid()
      ensures currentObject == old(currentObject)[NestedKeyToStr(currentNestedKey) := value]
      ensures listStack == old(listStack) && currentNestedKey == old(currentNestedKey)
      ensures currentObjectId == old(currentObjectId) && arrayIds == old(arrayIds)
      ensures published == old(published)
    {
      var key := NestedKeyToStr(currentNestedKey);
      NestedKeyNotIdPrefixed(currentNestedKey);
      currentObject := currentObject[key := value];
    }

    /** Builds the list path from the stack in a loop, as `current_list_path` does. */
    method CurrentListPath() returns (r: string)
      ensures r == ListPathOf(listStack, rootName)
    {
      var listPath: seq<string> := [];
      var i := 0;
      while i < |listStack|
        invariant 0 <= i <= |listStack|
        invariant listPath == KeyNames(listStack[..i])
      {
        assert listStack[..i + 1][..i] == listStack[..i];
        listPath := listPath + [NestedKeyToStr(listStack[i].nestedKey)];
        i := i + 1;
      }
      assert listStack[..i] == listStack;
      listPath := Reversed(listPath);
      listPath := listPath + [rootName];
      r := TablePathToStr(listPath);
      ListPathOfJoined(listStack, rootName);
    }

    /** As `CurrentListPath`, with the innermost list dropped before reversing. */
    method ParentListPath() returns (r: string)
      ensures r == ParentListPathOf(listStack, rootName)
    {
      var listPath: seq<string> := [];
      var i := 0;
      while i < |listStack|
        invariant 0 <= i <= |listStack|
        invariant listPath == KeyNames(listStack[..i])
      {
        assert listStack[..i + 1][..i] == listStack[..i];
        listPath := listPath + [NestedKeyToStr(listStack[i].nestedKey)];
        i := i + 1;
      }
      assert listStack[..i] == listStack;
      listPath := DropLast(listPath);
      listPath := Reversed(listPath);
      listPath := listPath + [rootName];
      r := TablePathToStr(listPath);
      ParentListPathOfJoined(listStack, rootName);
      ListPathOfJoined(listStack, rootName);
    }

    /** The consumer call that publishing `obj` as element `id` of the current list makes. */
    function Publication(obj: FlatObject, id: int): (string, FlatObject)
      reads this`listStack
    {
      (ListPathOf(listStack, rootName), PublishedObject(obj, listStack, rootName, id))
    }

    /** Adds the id columns, hands the object to the consumer and starts the next one. */
    method PublishObject()
      requires Valid()
      modifies this`currentObject, this`currentObjectId, this`published
      ensures Valid()
      ensures published == old(published) + [Publication(old(currentObject), old(currentObjectId))]
      ensures currentObjectId == old(currentObjectId) + 1
      ensures currentObject == map[]
      ensures listStack == old(listStack) && currentNestedKey == old(currentNestedKey) && arrayIds == old(arrayIds)
    {
      var tableName, popObject := WithIdColumns();
      currentObjectId := currentObjectId + 1;
      currentObject := map[];
      published := published + [(tableName, popObject)];
    }

    /** The current list path and the current object with its id columns added. */
    method WithIdColumns() returns (tableName: string, row: FlatObject)
      ensures (tableName, row) == Publication(currentObject, currentObjectId)
    {
      tableName := CurrentListPath();
      var parentTableName := ParentListPath();
      row := currentObject["id_" + tableName := Int(currentObjectId)];
      if |listStack| > 0 {
        row := row["id_" + parentTableName := Int(listStack[|listStack| - 1].objectId)];
      }
    }

    /** Publishes the current object when no map is open in the current list element. */
    method PublishIfAtRoot()
      requires Valid()
      modifies this
      ensures Valid()
      ensures listStack == old(listStack) && currentNestedKey == old(currentNestedKey) && arrayIds == old(arrayIds)
      ensures !AtListOrDocumentRoot() ==> published == old(published)
      ensures !AtListOrDocumentRoot() ==> currentObject == old(currentObject) && currentObjectId == old(currentObjectId)
      ensures AtListOrDocumentRoot() ==> published == old(published) + [Publication(old(currentObject), old(currentObjectId))]
      ensures AtListOrDocumentRoot() ==> currentObject == map[] && currentObjectId == old(currentObjectId) + 1
    {
      if AtListOrDocumentRoot() {
        PublishObject();
      }
    }

    /** `handle_null` stores the null and, unlike the other scalars, never publishes. */
    method HandleNull()
      requires Valid()
      modifies this
      ensures Valid()
      ensures currentObject == old(currentObject)[NestedKeyToStr(currentNestedKey) := Null]
      ensures listStack == old(listStack) && currentNestedKey == old(currentNestedKey)
      ensures currentObjectId == old(currentObjectId) && arrayIds == old(arrayIds)
      ensures published == old(published)
    {
      HandleJsonValue(Null);
    }

    /**
     * Shared shape of `handle_double`, `handle_int`, `handle_bool` and
     * `handle_string`: store the value, then publish at a list element's top
     * level, where the value's column is `list`.
     */
    method HandleScalar(value: JsonValue)
      requires Valid()
      modifies this
      ensures Valid()
      ensures listStack == old(listStack) && currentNestedKey == old(currentNestedKey) && arrayIds == old(arrayIds)
      ensures !AtListOrDocumentRoot() ==> published == old(published) && currentObjectId == old(currentObjectId)
      ensures !AtListOrDocumentRoot() ==> currentObject == old(currentObject)[NestedKeyToStr(currentNestedKey) := value]
      ensures AtListOrDocumentRoot() ==> published == old(published) + [Publication(old(currentObject)["list" := value], old(currentObjectId))]
      ensures AtListOrDocumentRoot() ==> currentObject == map[] && currentObjectId == old(currentObjectId) + 1
    {
      NestedKeyOfEmpty();
      HandleJsonValue(value);
      PublishIfAtRoot();
    }

    /** The double arrives as its printed text. */
    method HandleDouble(text: string)
      requires Valid()
      modifies this
      ensures Valid()
      ensures listStack == old(listStack) && currentNestedKey == old(currentNestedKey) && arrayIds == old(arrayIds)
      ensures !AtListOrDocumentRoot() ==> published == old(published) && currentObjectId == old(currentObjectId)
      ensures !AtListOrDocumentRoot() ==> currentObject == old(currentObject)[NestedKeyToStr(currentNestedKey) := Float(text)]
      ensures AtListOrDocumentRoot() ==> published == old(published) + [Publication(old(currentObject)["list" := Float(text)], old(currentObjectId))]
      ensures AtListOrDocumentRoot() ==> currentObject == map[] && currentObjectId == old(currentObjectId) + 1
    {
      HandleScalar(Float(text));
    }

    method HandleInt(val: int)
      requires Valid()
      modifies this
      ensures Valid()
      ensures listStack == old(listStack) && currentNestedKey == old(currentNestedKey) && arrayIds == old(arrayIds)
      ensures !AtListOrDocumentRoot() ==> published == old(published) && currentObjectId == old(currentObjectId)
      ensures !AtListOrDocumentRoot() ==> currentObject == old(currentObject)[NestedKeyToStr(currentNestedKey) := Int(val)]
      ensures AtListOrDocumentRoot() ==> published == old(published) + [Publication(old(currentObject)["list" := Int(val)], old(currentObjectId))]
      ensures AtListOrDocumentRoot() ==> currentObject == map[] && currentObjectId == old(currentObjectId) + 1
    {
      HandleScalar(Int(val));
    }

    method HandleBool(val: bool)
      requires Valid()
      modifies this
      ensures Valid()
      ensures listStack == old(listStack) && currentNestedKey == old(currentNestedKey) && arrayIds == old(arrayIds)
      ensures !AtListOrDocumentRoot() ==> published == old(published) && currentObjectId == old(currentObjectId)
      ensures !AtListOrDocumentRoot() ==> currentObject == old(currentObject)[NestedKeyToStr(currentNestedKey) := Bool(val)]
      ensures AtListOrDocumentRoot() ==> published == old(published) + [Publication(old(currentObject)["list" := Bool(val)], old(currentObjectId))]
      ensures AtListOrDocumentRoot() ==> currentObject == map[] && currentObjectId == old(currentObjectId) + 1
    {
      HandleScalar(Bool(val));
    }

    /** The string arrives already decoded. */
    method HandleString(val: string)
      requires Valid()
      modifies this
      ensures Valid()
      ensures listStack == old(listStack) && currentNestedKey == old(currentNestedKey) && arrayIds == old(arrayIds)
      ensures !AtListOrDocumentRoot() ==> published == old(published) && currentObjectId == old(currentObjectId)
      ensures !AtListOrDocumentRoot() ==> currentObject == old(currentObject)[NestedKeyToStr(currentNestedKey) := Str(val)]
      ensures AtListOrDocumentRoot() ==> published == old(published) + [Publication(old(currentObject)["list" := Str(val)], old(currentObjectId))]
      ensures AtListOrDocumentRoot() ==> currentObject == map[] && currentObjectId == old(currentObjectId) + 1
    {
      HandleScalar(Str(val));
    }

    /** Opens a map: a new, still unnamed, innermost key. */
    method HandleStartMap()
      requires Valid()
      modifies this
      ensures Valid()
      ensures currentNestedKey == old(currentNestedKey) + [""]
      ensures listStack == old(listStack) && currentObject == old(currentObject)
      ensures currentObjectId == old(currentObjectId) && arrayIds == old(arrayIds) && published == old(published)
    {
      currentNestedKey := currentNestedKey + [""];
    }

    /** Closes a map, publishing the object when that ends a list element. */
    method HandleEndMap()
      requires Valid()
      modifies this
      ensures Valid()
      ensures currentNestedKey == DropLast(old(currentNestedKey))
      ensures listStack == old(listStack) && arrayIds == old(arrayIds)
      ensures !AtListOrDocumentRoot() ==> published == old(published)
      ensures !AtListOrDocumentRoot() ==> currentObject == old(currentObject) && currentObjectId == old(currentObjectId)
      ensures AtListOrDocumentRoot() ==> published == old(published) + [Publication(old(currentObject), old(currentObjectId))]
      ensures AtListOrDocumentRoot() ==> currentObject == map[] && currentObjectId == old(currentObjectId) + 1
    {
      currentNestedKey := DropLast(currentNestedKey);
      PublishIfAtRoot();
    }

    /**
     * Names the innermost key. `handle_map_key` indexes one below the length,
     * which panics outside a map: then `ok` is false and nothing changes.
     */
    method HandleMapKey(key: string) returns (ok: bool)
      requires Valid()
      modifies this
      ensures Valid()
      ensures ok <==> |old(currentNestedKey)| > 0
      ensures ok ==> currentNestedKey == old(currentNestedKey)[|old(currentNestedKey)| - 1 := key]
      ensures !ok ==> currentNestedKey == old(currentNestedKey)
      ensures listStack == old(listStack) && currentObject == old(currentObject)
      ensures currentObjectId == old(currentObjectId) && arrayIds == old(arrayIds) && published == old(published)
    {
      var n := |currentNestedKey|;
      if n == 0 {
        return false;
      }
      currentNestedKey := currentNestedKey[n - 1 := key];
      ok := true;
    }

    /**
     * Saves the enclosing list's next id, pushes the open object, and starts
     * the new list at the id it had when it was last left (0 the first time).
     */
    method HandleStartArray()
      requires Valid()
      modifies this`arrayIds, this`currentObject, this`currentObjectId, this`currentNestedKey, this`listStack
      ensures Valid()
      ensures listStack == old(listStack) + [ListStackElement(old(currentObject), old(currentObjectId), old(currentNestedKey))]
      ensures currentObject == map[] && currentNestedKey == []
      ensures arrayIds == old(arrayIds)[ListPathOf(old(listStack), rootName) := old(currentObjectId)]
      ensures ListPathOf(listStack, rootName) in arrayIds ==> currentObjectId == arrayIds[ListPathOf(listStack, rootName)]
      ensures ListPathOf(listStack, rootName) !in arrayIds ==> currentObjectId == 0
      ensures published == old(published)
    {
      SaveListId();
      PushListStack();
      ResumeNumbering();
    }

    /** Records the next id of the current list under its list path. */
    method SaveListId()
      modifies this`arrayIds
      ensures arrayIds == old(arrayIds)[ListPathOf(listStack, rootName) := currentObjectId]
    {
      var currentPath := CurrentListPath();
      arrayIds := arrayIds[currentPath := currentObjectId];
    }

    /** Moves the open object, its id and its key onto the list stack and starts afresh. */
    method PushListStack()
      requires Valid()
      modifies this`currentObject, this`currentObjectId, this`currentNestedKey, this`listStack
      ensures Valid()
      ensures listStack == old(listStack) + [ListStackElement(old(currentObject), old(currentObjectId), old(currentNestedKey))]
      ensures currentObject == map[] && currentObjectId == 0 && currentNestedKey == []
    {
      var savedObject := currentObject;
      var savedId := currentObjectId;
      var savedKey := currentNestedKey;
      currentObject := map[];
      currentObjectId := 0;
      currentNestedKey := [];

      listStack := listStack + [ListStackElement(savedObject, savedId, savedKey)];
    }

    /** Continues the current list's numbering from its saved id, if it has one. */
    method ResumeNumbering()
      modifies this`currentObjectId
      ensures ListPathOf(listStack, rootName) in arrayIds ==> currentObjectId == arrayIds[ListPathOf(listStack, rootName)]
      ensures ListPathOf(listStack, rootName) !in arrayIds ==> currentObjectId == old(currentObjectId)
    {
      var listPath := CurrentListPath();
      if listPath in arrayIds {
        currentObjectId := arrayIds[listPath];
      }
    }

    /**
     * Saves the list's next id and restores what its start saved. Popping an
     * empty stack panics in `handle_end_array`: then `ok` is false, after the save.
     */
    method HandleEndArray() returns (ok: bool)
      requires Valid()
      modifies this
      ensures Valid()
      ensures ok <==> |old(listStack)| > 0
      ensures arrayIds == old(arrayIds)[ListPathOf(old(listStack), rootName) := old(currentObjectId)]
      ensures !ok ==> listStack == old(listStack) && currentNestedKey == old(currentNestedKey)
      ensures !ok ==> currentObject == old(currentObject) && currentObjectId == old(currentObjectId)
      ensures !ok ==> published == old(published)
      ensures ok ==> listStack == old(listStack)[..|old(listStack)| - 1]
      ensures ok ==> currentNestedKey == old(listStack)[|old(listStack)| - 1].nestedKey
      ensures ok && !AtListOrDocumentRoot() ==> published == old(published)
      ensures ok && !AtListOrDocumentRoot() ==> currentObject == old(listStack)[|old(listStack)| - 1].obj
      ensures ok && !AtListOrDocumentRoot() ==> currentObjectId == old(listStack)[|old(listStack)| - 1].objectId
      ensures ok && AtListOrDocumentRoot() ==>
        published == old(published) + [Publication(old(listStack)[|old(listStack)| - 1].obj, old(listStack)[|old(listStack)| - 1].objectId)]
      ensures ok && AtListOrDocumentRoot() ==> currentObject == map[]
      ensures ok && AtListOrDocumentRoot() ==> currentObjectId == old(listStack)[|old(listStack)| - 1].objectId + 1
    {
      SaveListId();

      if |listStack| == 0 {
        return false;
      }
      PopListStack();
      PublishIfAtRoot();
      ok := true;
    }

    /** Takes the innermost saved object, its id and its key back off the list stack. */
    method PopListStack()
      requires Valid() && |listStack| > 0
      modifies this`currentObject, this`currentObjectId, this`currentNestedKey, this`listStack
      ensures Valid()
      ensures listStack == old(listStack)[..|old(listStack)| - 1]
      ensures currentObject == old(listStack)[|old(listStack)| - 1].obj
      ensures currentObjectId == old(listStack)[|old(listStack)| - 1].objectId
      ensures currentNestedKey == old(listStack)[|old(listStack)| - 1].nestedKey
    {
      var vals := listStack[|listStack| - 1];
      listStack := listStack[..|listStack| - 1];

      currentObject := vals.obj;
      currentObjectId := vals.objectId;
      currentNestedKey := vals.nestedKey;
    }
  }

  /**
   * A list opened inside a map and closed again gives back the enclosing
   * object, its id and its key, and records where the inner list stopped.
   */
  method ArrayInsideMapRestores(h: NestedObjectHandler)
    requires h.Valid() && |h.currentNestedKey| > 0
    modifies h
    ensures h.Valid()
    ensures h.listStack == old(h.listStack) && h.currentNestedKey == old(h.currentNestedKey)
    ensures h.currentObject == old(h.currentObject) && h.currentObjectId == old(h.currentObjectId)
    ensures h.published == old(h.published)
  {
    h.HandleStartArray();
    var ok := h.HandleEndArray();
    assert ok;
  }

  /**
   * Leaving a list and entering the same list path again resumes its
   * numbering where it stopped.
   */
  method ReenteredArrayResumes(h: NestedObjectHandler)
    requires h.Valid() && |h.listStack| > 0 && |h.listStack[|h.listStack| - 1].nestedKey| > 0
    modifies h
    ensures h.Valid()
    ensures h.listStack == old(h.listStack) && h.currentObjectId == old(h.currentObjectId)
  {
    ghost var path := ListPathOf(h.listStack, h.rootName);
    ghost var top := h.listStack[|h.listStack| - 1];
    assert h.listStack == h.listStack[..|h.listStack| - 1] + [top];
    var ok := h.HandleEndArray();
    assert ok;
    assert h.arrayIds[path] == old(h.currentObjectId);
    assert h.listStack + [ListStackElement(h.currentObject, h.currentObjectId, h.currentNestedKey)] == old(h.listStack);
    h.HandleStartArray();
  }
}
