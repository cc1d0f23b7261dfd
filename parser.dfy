/// The streaming flattener of src/parser/mod.rs. One `ObjectHandler` per
/// table path builds the records of that table; an arena tree of handlers,
/// walked down and up as lists open and close, finds the handler of the
/// current table; records are handed to the consumer with their location.
module Parser {
  import opened Strings
  import opened Models

  /** Builds one record per list element; `path` is the key stack inside it. */
  class ObjectHandler {
    var objectId: int
    var path: JsonPath
    var rec: TableRecord

    constructor ()
      ensures objectId == 0 && path == [] && rec == map[]
    {
      objectId := 0;
      path := [];
      rec := map[];
    }

    /**
     * Hands out the finished record with its id once no map is open any
     * more, and starts the next record under the next id.
     */
    method Pop() returns (r: Option<(int, TableRecord)>)
      modifies this`objectId, this`rec
      ensures |path| != 0 ==> r == None && objectId == old(objectId) && rec == old(rec)
      ensures |path| == 0 ==> r == Some((old(objectId), old(rec)))
      ensures |path| == 0 ==> rec == map[] && objectId == old(objectId) + 1
    {
      if |path| != 0 {
        return None;
      }
      var newRec: TableRecord := map[];
      newRec, rec := rec, newRec;
      r := Some((objectId, newRec));
      objectId := objectId + 1;
    }

    /** Stores `val` under the current path, replacing what was there. */
    method HandleJsonValue(val: JsonValue)
      modifies this`rec
      ensures rec == old(rec)[path := val]
    {
      rec := rec[path := val];
    }

    method HandleStartMap()
      modifies this`path
      ensures path == old(path) + [""]
    {
      path := path + [""];
    }

    /** `Vec::pop`: the innermost key goes, and nothing happens on an empty path. */
    method HandleEndMap()
      modifies this`path
      ensures path == DropLast(old(path))
    {
      path := DropLast(path);
    }

    /**
     * Names the innermost key. `handle_map_key` unwraps the last element, which
     * panics on an empty path: then `ok` is false and nothing changes.
     */
    method HandleMapKey(key: string) returns (ok: bool)
      modifies this`path
      ensures ok <==> |old(path)| > 0
      ensures ok ==> path == old(path)[|old(path)| - 1 := key]
      ensures !ok ==> path == old(path)
    {
      if |path| == 0 {
        return false;
      }
      path := path[|path| - 1 := key];
      ok := true;
    }
  }

  /** Pops `n` finished records in a row and collects their ids. */
  method PopRepeatedly(h: ObjectHandler, n: nat) returns (ids: seq<int>)
    requires |h.path| == 0
    modifies h
    ensures |ids| == n
    ensures forall i :: 0 <= i < n ==> ids[i] == old(h.objectId) + i
    ensures h.objectId == old(h.objectId) + n && h.path == old(h.path)
  {
    ids := [];
    var k := 0;
    while k < n
      invariant 0 <= k <= n && |ids| == k
      invariant forall i :: 0 <= i < k ==> ids[i] == old(h.objectId) + i
      invariant h.objectId == old(h.objectId) + k && h.path == old(h.path)
    {
      var r := h.Pop();
      ids := ids + [r.value.0];
      k := k + 1;
    }
  }

  /** A new handler numbers the records of its table 0, 1, 2, ... */
  method FreshHandlerIds(n: nat) returns (ids: seq<int>)
    ensures |ids| == n
    ensures forall i :: 0 <= i < n ==> ids[i] == i
  {
    var h := new ObjectHandler();
    ids := PopRepeatedly(h, n);
  }

  /** One arena slot: the handler, the index of its parent, its children by path. */
  datatype ArenaNode = ArenaNode(handler: ObjectHandler, parent: int, children: map<JsonPath, int>)

  /**
   * The arena is a tree rooted at slot 0, which is its own parent; every
   * other node was created after its parent. `labels[i]` is the path under
   * which node `i` hangs from its parent.
   */
  ghost predicate Shaped(nodes: seq<ArenaNode>, labels: seq<JsonPath>)
  {
    |nodes| > 0 && nodes[0].parent == 0 && |labels| == |nodes|
    && forall i :: 0 < i < |nodes| ==> 0 <= nodes[i].parent < i
  }

  /** The table path of node `i`: the labels from the root down to it. */
  ghost function PathIn(nodes: seq<ArenaNode>, labels: seq<JsonPath>, i: int): seq<JsonPath>
    requires Shaped(nodes, labels) && 0 <= i < |nodes|
    decreases i
  {
    if i == 0 then [] else PathIn(nodes, labels, nodes[i].parent) + [labels[i]]
  }

  /** The child of `i` under `p` names `i` as its parent and `p` as its label. */
  ghost predicate LinkedBack(nodes: seq<ArenaNode>, labels: seq<JsonPath>, i: int, p: JsonPath)
    requires 0 <= i < |nodes| && p in nodes[i].children
  {
    var c := nodes[i].children[p];
    0 < c < |nodes| && c < |labels| && nodes[c].parent == i && labels[c] == p
  }

  /** Node `i` is the child of its parent under its label. */
  ghost predicate HangsFromParent(nodes: seq<ArenaNode>, labels: seq<JsonPath>, i: int)
    requires Shaped(nodes, labels) && 0 < i < |nodes|
  {
    var q := nodes[nodes[i].parent];
    labels[i] in q.children && q.children[labels[i]] == i
  }

  /** Child links and parent indices agree, and no handler sits in two slots. */
  ghost predicate Linked(nodes: seq<ArenaNode>, labels: seq<JsonPath>)
    requires Shaped(nodes, labels)
  {
    (forall i, p :: 0 <= i < |nodes| && p in nodes[i].children ==> LinkedBack(nodes, labels, i, p))
    && (forall i :: 0 < i < |nodes| ==> HangsFromParent(nodes, labels, i))
    && (forall i, j :: 0 <= i < j < |nodes| ==> nodes[i].handler != nodes[j].handler)
  }

  /** The path of a node is empty exactly at the root. */
  lemma PathLength(nodes: seq<ArenaNode>, labels: seq<JsonPath>, i: int)
    requires Shaped(nodes, labels) && 0 <= i < |nodes|
    ensures (|PathIn(nodes, labels, i)| == 0) <==> (i == 0)
  {
  }

  /** A table path leads to one node only: there is one handler per table. */
  lemma {:induction false} PathDeterminesNode(nodes: seq<ArenaNode>, labels: seq<JsonPath>, i: int, j: int)
    requires Shaped(nodes, labels) && Linked(nodes, labels)
    requires 0 <= i < |nodes| && 0 <= j < |nodes|
    requires PathIn(nodes, labels, i) == PathIn(nodes, labels, j)
    ensures i == j
    decreases i + j
  {
    if i == 0 || j == 0 {
      PathLength(nodes, labels, i);
      PathLength(nodes, labels, j);
    } else {
      var pi, pj := nodes[i].parent, nodes[j].parent;
      var ti := PathIn(nodes, labels, i);
      assert ti == PathIn(nodes, labels, pi) + [labels[i]];
      assert ti == PathIn(nodes, labels, pj) + [labels[j]];
      assert labels[i] == ti[|ti| - 1] == labels[j];
      assert PathIn(nodes, labels, pi) == ti[..|ti| - 1] == PathIn(nodes, labels, pj);
      PathDeterminesNode(nodes, labels, pi, pj);
      assert HangsFromParent(nodes, labels, i) && HangsFromParent(nodes, labels, j);
    }
  }

  /** The arena after `go_down` links a new leaf under `path` from `parentId`. */
  function WithLeaf(nodes: seq<ArenaNode>, parentId: int, path: JsonPath, h: ObjectHandler): (r: seq<ArenaNode>)
    requires 0 <= parentId < |nodes|
    ensures |r| == |nodes| + 1 && r[|nodes|] == ArenaNode(h, parentId, map[])
    ensures r[parentId].children == nodes[parentId].children[path := |nodes|]
    ensures r[parentId].handler == nodes[parentId].handler && r[parentId].parent == nodes[parentId].parent
    ensures forall i :: 0 <= i < |nodes| && i != parentId ==> r[i] == nodes[i]
  {
    nodes[parentId := nodes[parentId].(children := nodes[parentId].children[path := |nodes|])] + [ArenaNode(h, parentId, map[])]
  }

  /** Paths depend only on parents and labels, so they survive a change of children. */
  lemma {:induction false} PathInSamePrefix(a: seq<ArenaNode>, la: seq<JsonPath>, b: seq<ArenaNode>, lb: seq<JsonPath>, i: int)
    requires Shaped(a, la) && Shaped(b, lb) && 0 <= i < |a| && i < |b|
    requires forall j :: 0 <= j <= i ==> a[j].parent == b[j].parent && la[j] == lb[j]
    ensures PathIn(a, la, i) == PathIn(b, lb, i)
    decreases i
  {
    if i != 0 {
      PathInSamePrefix(a, la, b, lb, a[i].parent);
    }
  }

  /** Adding a leaf under a new path keeps the tree well linked and gives the leaf the extended path. */
  lemma WithLeafLinked(nodes: seq<ArenaNode>, labels: seq<JsonPath>, parentId: int, path: JsonPath, h: ObjectHandler)
    requires Shaped(nodes, labels) && Linked(nodes, labels) && 0 <= parentId < |nodes|
    requires path !in nodes[parentId].children
    requires forall i :: 0 <= i < |nodes| ==> nodes[i].handler != h
    ensures Shaped(WithLeaf(nodes, parentId, path, h), labels + [path])
    ensures Linked(WithLeaf(nodes, parentId, path, h), labels + [path])
    ensures PathIn(WithLeaf(nodes, parentId, path, h), labels + [path], |nodes|) == PathIn(nodes, labels, parentId) + [path]
  {
    var r := WithLeaf(nodes, parentId, path, h);
    var lr := labels + [path];
    assert Shaped(r, lr);
    LeafLinksBack(nodes, labels, parentId, path, r, lr);
    LeafHangs(nodes, labels, parentId, path, r, lr);
    assert forall i, j :: 0 <= i < j < |r| ==> r[i].handler != r[j].handler;
    PathInSamePrefix(nodes, labels, r, lr, parentId);
  }

  lemma LeafLinksBack(nodes: seq<ArenaNode>, labels: seq<JsonPath>, parentId: int, path: JsonPath, r: seq<ArenaNode>, lr: seq<JsonPath>)
    requires Shaped(nodes, labels) && Linked(nodes, labels) && 0 <= parentId < |nodes|
    requires path !in nodes[parentId].children
    requires |r| == |nodes| + 1 && r[|nodes|].parent == parentId && lr == labels + [path]
    requires r[parentId].children == nodes[parentId].children[path := |nodes|]
    requires forall i :: 0 <= i < |nodes| ==> r[i].parent == nodes[i].parent
    requires forall i :: 0 <= i < |nodes| && i != parentId ==> r[i].children == nodes[i].children
    requires r[|nodes|].children == map[]
    ensures forall i, p :: 0 <= i < |r| && p in r[i].children ==> LinkedBack(r, lr, i, p)
  {
    forall i, p | 0 <= i < |r| && p in r[i].children
      ensures LinkedBack(r, lr, i, p)
    {
      if !(i == parentId && p == path) {
        assert LinkedBack(nodes, labels, i, p);
      }
    }
  }

  lemma LeafHangs(nodes: seq<ArenaNode>, labels: seq<JsonPath>, parentId: int, path: JsonPath, r: seq<ArenaNode>, lr: seq<JsonPath>)
    requires Shaped(nodes, labels) && Linked(nodes, labels) && 0 <= parentId < |nodes|
    requires path !in nodes[parentId].children
    requires Shaped(r, lr)
    requires |r| == |nodes| + 1 && r[|nodes|].parent == parentId && lr == labels + [path]
    requires r[parentId].children == nodes[parentId].children[path := |nodes|]
    requires forall i :: 0 <= i < |nodes| ==> r[i].parent == nodes[i].parent
    requires forall i :: 0 <= i < |nodes| && i != parentId ==> r[i].children == nodes[i].children
    ensures forall i :: 0 < i < |r| ==> HangsFromParent(r, lr, i)
  {
    forall i | 0 < i < |r|
      ensures HangsFromParent(r, lr, i)
    {
      if i < |nodes| {
        assert HangsFromParent(nodes, labels, i);
      }
    }
  }

  /**
   * A tree of handlers kept in an arena, one node per table path, with the
   * current node and its path. `labels` records, for the proof only, the
   * path under which each node hangs from its parent.
   */
  class ObjectHandlerHashTree {
    var arena: seq<ArenaNode>
    var currentId: int
    var currentPath: seq<JsonPath>
    ghost var labels: seq<JsonPath>

    ghost predicate Valid()
      reads this
    {
      Shaped(arena, labels) && Linked(arena, labels)
      && 0 <= currentId < |arena|
      && currentPath == PathIn(arena, labels, currentId)
    }

    constructor ()
      ensures Valid()
      ensures |arena| == 1 && currentId == 0 && currentPath == []
      ensures fresh(arena[0].handler) && arena[0].children == map[]
      ensures arena[0].handler.objectId == 0 && arena[0].handler.path == [] && arena[0].handler.rec == map[]
    {
      var root := new ObjectHandler();
      arena := [ArenaNode(root, 0, map[])];
      currentPath := [];
      currentId := 0;
      labels := [[]];
    }

    function Current(): (h: ObjectHandler)
      reads this
      requires Valid()
      ensures h == arena[currentId].handler
    {
      arena[currentId].handler
    }

    /** The parent's handler; there is none exactly at the root, its own parent. */
    function Parent(): (r: Option<ObjectHandler>)
      reads this
      requires Valid()
      ensures r.None? <==> currentId == 0
      ensures r.Some? ==> r.value == arena[arena[currentId].parent].handler && r.value != Current()
    {
      var parentId := arena[currentId].parent;
      if parentId != currentId then Some(arena[parentId].handler) else None
    }

    /** Moves to the parent node; at the root nothing moves. */
    method GoUp()
      requires Valid()
      modifies this`currentId, this`currentPath
      ensures Valid()
      ensures currentId == arena[old(currentId)].parent
      ensures currentPath == DropLast(old(currentPath))
    {
      var parentId := arena[currentId].parent;
      assert currentId != 0 ==> PathIn(arena, labels, currentId) == PathIn(arena, labels, parentId) + [labels[currentId]];
      currentId := parentId;
      currentPath := DropLast(currentPath);
    }

    /**
     * Moves to the child under `path`, first creating it, linked from the
     * current node and holding a new handler, when there is none yet.
     */
    method GoDown(path: JsonPath)
      requires Valid()
      modifies this
      ensures Valid()
      ensures currentPath == old(currentPath) + [path]
      ensures arena[currentId].parent == old(currentId)
      ensures path in old(arena[currentId].children) ==> arena == old(arena) && currentId == old(arena[currentId].children[path])
      ensures path !in old(arena[currentId].children) ==> currentId == |old(arena)|
      ensures path !in old(arena[currentId].children) ==> arena == WithLeaf(old(arena), old(currentId), path, arena[currentId].handler)
      ensures path !in old(arena[currentId].children) ==> fresh(arena[currentId].handler)
      ensures path !in old(arena[currentId].children) ==> arena[currentId].handler.objectId == 0 && arena[currentId].handler.path == [] && arena[currentId].handler.rec == map[]
    {
      var node := arena[currentId];
      if path in node.children {
        assert LinkedBack(arena, labels, currentId, path);
        assert PathIn(arena, labels, node.children[path]) == currentPath + [path];
        currentId := node.children[path];
        currentPath := currentPath + [path];
      } else {
        AddLeaf(path);
      }
    }

    /** The `None` arm of `go_down`: a new node with a new handler, linked under `path`. */
    method AddLeaf(path: JsonPath)
      requires Valid() && path !in arena[currentId].children
      modifies this
      ensures Valid()
      ensures currentPath == old(currentPath) + [path]
      ensures currentId == |old(arena)|
      ensures arena == WithLeaf(old(arena), old(currentId), path, arena[currentId].handler)
      ensures fresh(arena[currentId].handler)
      ensures arena[currentId].handler.objectId == 0 && arena[currentId].handler.path == [] && arena[currentId].handler.rec == map[]
    {
      var h := new ObjectHandler();
      var parentId := currentId;
      WithLeafLinked(arena, labels, parentId, path, h);
      arena := WithLeaf(arena, parentId, path, h);
      labels := labels + [path];
      currentId := |arena| - 1;
      currentPath := currentPath + [path];
    }
  }

  /** Feeds parse events to the handler of the current table and emits finished records. */
  class NestedObjectHandler {
    const tree: ObjectHandlerHashTree
    /** Every call of the consumer, in order. */
    var emitted: seq<(TableLocation, TableRecord)>

    ghost predicate Valid()
      reads this, tree
    {
      tree.Valid()
    }

    constructor ()
      ensures Valid() && fresh(tree)
      ensures |tree.arena| == 1 && tree.currentId == 0 && tree.currentPath == []
      ensures emitted == []
    {
      tree := new ObjectHandlerHashTree();
      emitted := [];
    }

    /** The handlers of all tables seen so far. */
    ghost function Handlers(): set<ObjectHandler>
      reads this, tree
    {
      set i | 0 <= i < |tree.arena| :: tree.arena[i].handler
    }

    /** Object id of the enclosing table's current element, or 0 at the root. */
    function ParentObjectId(): (id: int)
      reads tree, if tree.Valid() && tree.currentId != 0 then {tree.arena[tree.arena[tree.currentId].parent].handler} else {}
      requires tree.Valid()
      ensures tree.currentId == 0 ==> id == 0
      ensures tree.currentId != 0 ==> id == tree.arena[tree.arena[tree.currentId].parent].handler.objectId
    {
      match tree.Parent()
      case Some(p) => p.objectId
      case None => 0
    }

    /**
     * Emits the current handler's record when it is finished, located at
     * the current table path under the parent's current element.
     */
    method TryPop()
      requires Valid()
      modifies this`emitted, tree.Current()`objectId, tree.Current()`rec
      ensures Valid()
      ensures var h := tree.Current();
        |h.path| != 0 ==> emitted == old(emitted) && h.objectId == old(h.objectId) && h.rec == old(h.rec)
      ensures var h := tree.Current();
        |h.path| == 0 ==> emitted == old(emitted) + [(TableLocation(tree.currentPath, old(h.objectId), ParentObjectId()), old(h.rec))]
      ensures var h := tree.Current();
        |h.path| == 0 ==> h.rec == map[] && h.objectId == old(h.objectId) + 1
    {
      var r := tree.Current().Pop();
      match r {
        case Some((recId, rec)) =>
          var parentId := ParentObjectId();
          var location := TableLocation(tree.currentPath, recId, parentId);
          emitted := emitted + [(location, rec)];
        case None =>
      }
    }

    method HandleJsonValue(val: JsonValue)
      requires Valid()
      modifies this`emitted, tree.Current()`objectId, tree.Current()`rec
      ensures Valid()
      ensures var h := tree.Current();
        |h.path| != 0 ==> emitted == old(emitted) && h.objectId == old(h.objectId) && h.rec == old(h.rec)[h.path := val]
      ensures var h := tree.Current();
        |h.path| == 0 ==> emitted == old(emitted) + [(TableLocation(tree.currentPath, old(h.objectId), ParentObjectId()), old(h.rec)[[] := val])]
      ensures var h := tree.Current();
        |h.path| == 0 ==> h.rec == map[] && h.objectId == old(h.objectId) + 1
    {
      tree.Current().HandleJsonValue(val);
      TryPop();
    }

    method HandleStartMap()
      requires Valid()
      modifies tree.Current()`path
      ensures Valid()
      ensures tree.Current().path == old(tree.Current().path) + [""]
    {
      tree.Current().HandleStartMap();
    }

    method HandleEndMap()
      requires Valid()
      modifies this`emitted, tree.Current()`path, tree.Current()`objectId, tree.Current()`rec
      ensures Valid()
      ensures var h := tree.Current(); h.path == DropLast(old(h.path))
      ensures var h := tree.Current();
        |h.path| != 0 ==> emitted == old(emitted) && h.objectId == old(h.objectId) && h.rec == old(h.rec)
      ensures var h := tree.Current();
        |h.path| == 0 ==> emitted == old(emitted) + [(TableLocation(tree.currentPath, old(h.objectId), ParentObjectId()), old(h.rec))]
      ensures var h := tree.Current();
        |h.path| == 0 ==> h.rec == map[] && h.objectId == old(h.objectId) + 1
    {
      tree.Current().HandleEndMap();
      TryPop();
    }

    /** Names the innermost key; `ok` is false where `handle_map_key` panics (no map open). */
    method HandleMapKey(key: string) returns (ok: bool)
      requires Valid()
      modifies tree.Current()`path
      ensures Valid()
      ensures var h := tree.Current(); ok <==> |old(h.path)| > 0
      ensures var h := tree.Current(); ok ==> h.path == old(h.path)[|old(h.path)| - 1 := key]
      ensures var h := tree.Current(); !ok ==> h.path == old(h.path)
    {
      ok := tree.Current().HandleMapKey(key);
    }

    /** Enters the table of the list that starts here: named by the key path it sits at. */
    method HandleStartArray()
      requires Valid()
      modifies tree
      ensures Valid()
      ensures tree.currentPath == old(tree.currentPath) + [old(tree.Current().path)]
      ensures tree.arena[tree.currentId].parent == old(tree.currentId)
      ensures |tree.arena| >= |old(tree.arena)|
      ensures forall i :: 0 <= i < |tree.arena| ==> tree.arena[i].handler in old(Handlers()) || fresh(tree.arena[i].handler)
    {
      var currentPath := tree.Current().path;
      tree.GoDown(currentPath);
    }

    /** Leaves the list's table and emits the enclosing record if the list ended it. */
    method HandleEndArray()
      requires Valid()
      modifies tree`currentId, tree`currentPath, this`emitted
      modifies tree.arena[tree.arena[tree.currentId].parent].handler`objectId, tree.arena[tree.arena[tree.currentId].parent].handler`rec
      ensures Valid()
      ensures tree.currentId == old(tree.arena[tree.currentId].parent)
      ensures tree.currentPath == DropLast(old(tree.currentPath))
      ensures var h := tree.Current();
        |h.path| != 0 ==> emitted == old(emitted) && h.objectId == old(h.objectId) && h.rec == old(h.rec)
      ensures var h := tree.Current();
        |h.path| == 0 ==> emitted == old(emitted) + [(TableLocation(tree.currentPath, old(h.objectId), ParentObjectId()), old(h.rec))]
      ensures var h := tree.Current();
        |h.path| == 0 ==> h.rec == map[] && h.objectId == old(h.objectId) + 1
    {
      tree.GoUp();
      TryPop();
    }

    /** Dispatches one parse event; `ok` is false where a handler panics. */
    method HandleEvent(e: Event) returns (ok: bool)
      requires Valid()
      modifies this, tree, Handlers()
      ensures Valid()
      ensures |emitted| >= |old(emitted)| && emitted[..|old(emitted)|] == old(emitted)
      ensures |tree.arena| >= |old(tree.arena)|
      ensures forall i :: 0 <= i < |tree.arena| ==> tree.arena[i].handler in old(Handlers()) || fresh(tree.arena[i].handler)
    {
      ok := true;
      match e {
        case StartMap => HandleStartMap();
        case EndMap => HandleEndMap();
        case MapKey(key) => ok := HandleMapKey(key);
        case Value(v) => HandleJsonValue(v);
        case StartArray => HandleStartArray();
        case EndArray => HandleEndArray();
      }
    }

    /**
     * Feeds the tokenizer's events in order, stopping at the first one a
     * handler would panic on; what was emitted before is kept.
     */
    method Consume(events: seq<Event>) returns (ok: bool)
      requires Valid()
      modifies this, tree, Handlers()
      ensures Valid()
      ensures |emitted| >= |old(emitted)| && emitted[..|old(emitted)|] == old(emitted)
    {
      ok := true;
      var k := 0;
      while k < |events|
        invariant 0 <= k <= |events|
        invariant Valid()
        invariant |emitted| >= |old(emitted)| && emitted[..|old(emitted)|] == old(emitted)
        invariant forall i :: 0 <= i < |tree.arena| ==> tree.arena[i].handler in old(Handlers()) || fresh(tree.arena[i].handler)
      {
        ok := HandleEvent(events[k]);
        if !ok {
          return;
        }
        k := k + 1;
      }
    }
  }

  /** Entering a list's table and leaving it again comes back to the same node and path. */
  method DownThenUp(t: ObjectHandlerHashTree, path: JsonPath)
    requires t.Valid()
    modifies t
    ensures t.Valid()
    ensures t.currentId == old(t.currentId) && t.currentPath == old(t.currentPath)
  {
    t.GoDown(path);
    t.GoUp();
    assert DropLast(old(t.currentPath) + [path]) == old(t.currentPath);
  }
}
