/// Reading several documents into one database (src/read.rs): every reader
/// gets a remapper that turns the ids its flattener hands out, which start
/// again at 0 for every document, into ids that are unique per table across
/// all documents.
module Read {
  import opened Models

  /** Per remapper, per table, the global id each local id was mapped to. */
  type RemapStore = map<nat, map<seq<JsonPath>, map<int, int>>>

  /** The global id remapper `rid` gave local id `l` of table `tp`, if any. */
  function Lookup(store: RemapStore, rid: nat, tp: seq<JsonPath>, l: int): (r: Option<int>)
    ensures r.Some? <==> rid in store && tp in store[rid] && l in store[rid][tp]
  {
    if rid in store && tp in store[rid] && l in store[rid][tp] then Some(store[rid][tp][l]) else None
  }

  /** The next global id of a table: its counter, or 0 for a table never seen. */
  function Counter(tables: map<seq<JsonPath>, int>, tp: seq<JsonPath>): int
  {
    if tp in tables then tables[tp] else 0
  }

  /** The local-to-global map of one table inside one remapper, empty when absent. */
  function LocalIds(m: map<seq<JsonPath>, map<int, int>>, tp: seq<JsonPath>): map<int, int>
  {
    if tp in m then m[tp] else map[]
  }

  function IssuedOf(issued: map<seq<JsonPath>, seq<(nat, int)>>, tp: seq<JsonPath>): seq<(nat, int)>
  {
    if tp in issued then issued[tp] else []
  }

  /**
   * The remapper's invariant, with `issued[tp][g]` recording which
   * (remapper, local id) pair the global id `g` of table `tp` went to: a
   * table's counter is the number of ids handed out for it, and every
   * mapping a live remapper holds is below the counter and recorded.
   */
  ghost predicate Inv(tables: map<seq<JsonPath>, int>, store: RemapStore, issued: map<seq<JsonPath>, seq<(nat, int)>>)
  {
    tables.Keys == issued.Keys
    && (forall tp :: tp in tables ==> tables[tp] == |issued[tp]|)
    && (forall rid: nat, tp, l :: Lookup(store, rid, tp, l).Some? ==>
          var g := Lookup(store, rid, tp, l).value;
          tp in issued && 0 <= g < |issued[tp]| && issued[tp][g] == (rid, l))
  }

  /**
   * Within one table, two live mappings share a global id only when they
   * are the same mapping: the counter is shared by all remappers.
   */
  lemma GlobalIdsDistinct(tables: map<seq<JsonPath>, int>, store: RemapStore, issued: map<seq<JsonPath>, seq<(nat, int)>>,
                          tp: seq<JsonPath>, r1: nat, l1: int, r2: nat, l2: int)
    requires Inv(tables, store, issued)
    requires Lookup(store, r1, tp, l1).Some? && Lookup(store, r1, tp, l1) == Lookup(store, r2, tp, l2)
    ensures r1 == r2 && l1 == l2
    ensures 0 <= Lookup(store, r1, tp, l1).value < Counter(tables, tp)
  {
    assert issued[tp][Lookup(store, r1, tp, l1).value] == (r1, l1);
  }

  /** Registering an empty map, or dropping a remapper, keeps the invariant. */
  lemma InvAfterRegister(tables: map<seq<JsonPath>, int>, store: RemapStore, issued: map<seq<JsonPath>, seq<(nat, int)>>, id: nat)
    requires Inv(tables, store, issued)
    ensures Inv(tables, store[id := map[]], issued) && Inv(tables, store - {id}, issued)
  {
    var registered: RemapStore := store[id := map[]];
    forall rid: nat, tp, l | Lookup(registered, rid, tp, l).Some?
      ensures Lookup(registered, rid, tp, l) == Lookup(store, rid, tp, l)
    {
    }
    var dropped: RemapStore := store - {id};
    forall rid: nat, tp, l | Lookup(dropped, rid, tp, l).Some?
      ensures Lookup(dropped, rid, tp, l) == Lookup(store, rid, tp, l)
    {
    }
  }

  /**
   * Mapping a new local id to the table's counter, which goes up by one,
   * keeps the invariant.
   */
  lemma InvAfterMap(tables: map<seq<JsonPath>, int>, store: RemapStore, issued: map<seq<JsonPath>, seq<(nat, int)>>,
                    rid: nat, tp: seq<JsonPath>, l: int)
    requires Inv(tables, store, issued) && rid in store && Lookup(store, rid, tp, l).None?
    ensures var g := Counter(tables, tp);
      Inv(tables[tp := g + 1], store[rid := store[rid][tp := LocalIds(store[rid], tp)[l := g]]], issued[tp := IssuedOf(issued, tp) + [(rid, l)]])
  {
    var g := Counter(tables, tp);
    var store' := store[rid := store[rid][tp := LocalIds(store[rid], tp)[l := g]]];
    var issued' := issued[tp := IssuedOf(issued, tp) + [(rid, l)]];
    forall rid': nat, tp', l' | Lookup(store', rid', tp', l').Some?
      ensures var g' := Lookup(store', rid', tp', l').value;
        tp' in issued' && 0 <= g' < |issued'[tp']| && issued'[tp'][g'] == (rid', l')
    {
      if rid' != rid || tp' != tp || l' != l {
        assert Lookup(store', rid', tp', l') == Lookup(store, rid', tp', l');
      }
    }
  }

  /**
   * What a remapper state change keeps: the same live remappers, every
   * mapping they held, and every id handed out before.
   */
  ghost predicate Extends(store0: RemapStore, issued0: map<seq<JsonPath>, seq<(nat, int)>>,
                          store1: RemapStore, issued1: map<seq<JsonPath>, seq<(nat, int)>>)
  {
    store1.Keys == store0.Keys
    && (forall rid: nat, tp, l :: Lookup(store0, rid, tp, l).Some? ==> Lookup(store1, rid, tp, l) == Lookup(store0, rid, tp, l))
    && (forall tp :: tp in issued0 ==> tp in issued1 && issued0[tp] <= issued1[tp])
  }

  /** `IdRemapper`: the per-table counters and the maps of the live remappers. */
  class IdRemapper {
    var tables: map<seq<JsonPath>, int>
    var remapStore: RemapStore
    /** The id the corrected `StartFreshRemapper` gives next. */
    var nextRemapper: nat
    ghost var issued: map<seq<JsonPath>, seq<(nat, int)>>

    ghost predicate Valid()
      reads this
    {
      Inv(tables, remapStore, issued)
    }

    /** Every live remapper id was given out by `StartFreshRemapper`. */
    ghost predicate FreshIds()
      reads this
    {
      forall rid :: rid in remapStore ==> rid < nextRemapper
    }

    constructor ()
      ensures Valid() && FreshIds()
      ensures tables == map[] && remapStore == map[] && nextRemapper == 0
    {
      tables := map[];
      remapStore := map[];
      nextRemapper := 0;
      issued := map[];
    }

    /**
     * `start_remapper` as written: the new remapper's id is the number of
     * live remappers, and an empty map is registered under it, replacing
     * the map of a live remapper that already has that id.
     */
    method StartRemapper() returns (id: nat)
      requires Valid()
      modifies this`remapStore
      ensures Valid()
      ensures id == |old(remapStore)| && remapStore == old(remapStore)[id := map[]]
    {
      id := |remapStore|;
      InvAfterRegister(tables, remapStore, issued, id);
      remapStore := remapStore[id := map[]];
    }

    /**
     * `start_remapper` corrected: the new remapper's id was never given
     * out before, so no live remapper loses its map.
     */
    method StartFreshRemapper() returns (id: nat)
      requires Valid() && FreshIds()
      modifies this`remapStore, this`nextRemapper
      ensures Valid() && FreshIds()
      ensures id !in old(remapStore) && id == old(nextRemapper) && nextRemapper == id + 1
      ensures remapStore == old(remapStore)[id := map[]]
    {
      id := nextRemapper;
      InvAfterRegister(tables, remapStore, issued, id);
      remapStore := remapStore[id := map[]];
      nextRemapper := nextRemapper + 1;
    }

    /** `finish_remapper`: drops that remapper's map; the counters stay. */
    method FinishRemapper(id: nat)
      modifies this`remapStore
      ensures remapStore == old(remapStore) - {id}
      ensures old(Valid()) ==> Valid()
      ensures old(FreshIds()) ==> FreshIds()
    {
      if Valid() {
        InvAfterRegister(tables, remapStore, issued, id);
      }
      remapStore := remapStore - {id};
    }

    /**
     * `find_obj_id`: a local id the remapper already mapped keeps its
     * global id; a new one gets the table's counter, which then goes up by
     * one. An unknown remapper makes `find_obj_id` panic: the result is None
     * and nothing changes.
     */
    method FindObjId(rid: nat, tp: seq<JsonPath>, objectId: int) returns (r: Option<int>)
      requires Valid()
      modifies this`tables, this`remapStore, this`issued
      ensures Valid()
      ensures r.Some? <==> rid in old(remapStore)
      ensures r.Some? ==> Lookup(remapStore, rid, tp, objectId) == r
      ensures r.None? || old(Lookup(remapStore, rid, tp, objectId)).Some? ==>
        r == old(Lookup(remapStore, rid, tp, objectId))
        && tables == old(tables) && remapStore == old(remapStore) && issued == old(issued)
      ensures r.Some? && old(Lookup(remapStore, rid, tp, objectId)).None? ==>
        r.value == old(Counter(tables, tp)) && tables == old(tables)[tp := r.value + 1]
        && issued == old(issued)[tp := old(IssuedOf(issued, tp)) + [(rid, objectId)]]
        && remapStore == old(remapStore)[rid := old(remapStore[rid])[tp := old(LocalIds(remapStore[rid], tp))[objectId := r.value]]]
      ensures Extends(old(remapStore), old(issued), remapStore, issued)
    {
      if rid !in remapStore {
        return None;
      }
      var ids := LocalIds(remapStore[rid], tp);
      if objectId in ids {
        return Some(ids[objectId]);
      }
      var g := IssueId(rid, tp, objectId);
      r := Some(g);
    }

    /** A local id the live remapper `rid` has not mapped yet gets the table's counter, which goes up by one. */
    method IssueId(rid: nat, tp: seq<JsonPath>, objectId: int) returns (g: int)
      requires Valid() && rid in remapStore && Lookup(remapStore, rid, tp, objectId).None?
      modifies this`tables, this`remapStore, this`issued
      ensures Valid() && Lookup(remapStore, rid, tp, objectId) == Some(g)
      ensures g == old(Counter(tables, tp)) && tables == old(tables)[tp := g + 1]
      ensures issued == old(issued)[tp := old(IssuedOf(issued, tp)) + [(rid, objectId)]]
      ensures remapStore == old(remapStore)[rid := old(remapStore[rid])[tp := old(LocalIds(remapStore[rid], tp))[objectId := g]]]
      ensures Extends(old(remapStore), old(issued), remapStore, issued)
    {
      var remapper := remapStore[rid];
      g := Counter(tables, tp);
      InvAfterMap(tables, remapStore, issued, rid, tp, objectId);
      issued := issued[tp := IssuedOf(issued, tp) + [(rid, objectId)]];
      remapStore := remapStore[rid := remapper[tp := LocalIds(remapper, tp)[objectId := g]]];
      tables := tables[tp := g + 1];
    }

    /**
     * `remap_ids`: the record's own id is remapped in its table and its
     * parent id in the parent table; the table path stays.
     */
    method RemapIds(rid: nat, loc: TableLocation) returns (r: Option<TableLocation>)
      requires Valid()
      modifies this`tables, this`remapStore, this`issued
      ensures Valid()
      ensures r.Some? <==> rid in old(remapStore)
      ensures r.None? ==> tables == old(tables) && remapStore == old(remapStore) && issued == old(issued)
      ensures r.Some? ==>
        && r.value.tablePath == loc.tablePath
        && Lookup(remapStore, rid, loc.tablePath, loc.objectId) == Some(r.value.objectId)
        && Lookup(remapStore, rid, loc.ParentTablePath(), loc.parentObjectId) == Some(r.value.parentObjectId)
      ensures Extends(old(remapStore), old(issued), remapStore, issued)
    {
      var objectId := FindObjId(rid, loc.tablePath, loc.objectId);
      if objectId.None? {
        return None;
      }
      var parentId := FindObjId(rid, loc.ParentTablePath(), loc.parentObjectId);
      r := Some(TableLocation(loc.tablePath, objectId.value, parentId.value));
    }
  }

  /**
   * The reuse `start_remapper` allows: with two remappers live, finishing
   * the first and starting another gives the new one the id of the second,
   * whose mappings are then gone.
   */
  method StartRemapperReusesLiveId() returns (second: nat, third: nat, before: Option<int>, after: Option<int>)
    ensures second == 1 && third == 1
    ensures before == Some(0) && after == None
  {
    var remapper := new IdRemapper();
    var first := remapper.StartRemapper();
    second := remapper.StartRemapper();
    var g := remapper.FindObjId(second, [], 7);
    before := Lookup(remapper.remapStore, second, [], 7);
    remapper.FinishRemapper(first);
    assert remapper.remapStore.Keys == {1};
    third := remapper.StartRemapper();
    after := Lookup(remapper.remapStore, second, [], 7);
  }

  /** The same calls with the corrected start: the live remapper keeps its id and its mappings. */
  method StartFreshRemapperKeepsLiveMaps() returns (second: nat, third: nat, before: Option<int>, after: Option<int>)
    ensures second == 1 && third == 2
    ensures before == Some(0) && after == before
  {
    var remapper := new IdRemapper();
    var first := remapper.StartFreshRemapper();
    second := remapper.StartFreshRemapper();
    var g := remapper.FindObjId(second, [], 7);
    before := Lookup(remapper.remapStore, second, [], 7);
    remapper.FinishRemapper(first);
    third := remapper.StartFreshRemapper();
    after := Lookup(remapper.remapStore, second, [], 7);
  }

  /** The records of all readers, one reader after the other. */
  function Flatten(readers: seq<seq<(TableLocation, TableRecord)>>): seq<(TableLocation, TableRecord)>
  {
    if |readers| == 0 then [] else Flatten(readers[..|readers| - 1]) + readers[|readers| - 1]
  }

  /** For every record of `Flatten(readers)`, the index of the reader it comes from. */
  function ReaderIndices(readers: seq<seq<(TableLocation, TableRecord)>>): (r: seq<nat>)
    ensures |r| == |Flatten(readers)|
    ensures forall k :: 0 <= k < |r| ==> r[k] < |readers|
  {
    if |readers| == 0 then []
    else ReaderIndices(readers[..|readers| - 1]) + seq(|readers[|readers| - 1]|, _ => |readers| - 1)
  }

  /** Taking one more reader appends its records, each tagged with its index. */
  lemma ReadersSnoc(readers: seq<seq<(TableLocation, TableRecord)>>, i: nat)
    requires i < |readers|
    ensures Flatten(readers[..i + 1]) == Flatten(readers[..i]) + readers[i]
    ensures ReaderIndices(readers[..i + 1]) == ReaderIndices(readers[..i]) + seq(|readers[i]|, _ => i)
  {
    assert readers[..i + 1][..i] == readers[..i];
  }

  /** The table an id of `loc` lives in: its own table, or for the parent id the parent table. */
  function RefTable(loc: TableLocation, parent: bool): seq<JsonPath>
  {
    if parent then loc.ParentTablePath() else loc.tablePath
  }

  function RefId(loc: TableLocation, parent: bool): int
  {
    if parent then loc.parentObjectId else loc.objectId
  }

  /**
   * `written` is `ins` with its ids remapped: record and table unchanged,
   * every id recorded in `issued` as given to its reader (`who`) and local
   * id, and equal local ids of one reader in one table remapped alike.
   */
  ghost predicate Remapped(written: seq<(TableLocation, TableRecord)>, ins: seq<(TableLocation, TableRecord)>, who: seq<nat>,
                           issued: map<seq<JsonPath>, seq<(nat, int)>>)
  {
    |written| == |ins| == |who|
    && (forall k :: 0 <= k < |written| ==> written[k].1 == ins[k].1 && written[k].0.tablePath == ins[k].0.tablePath)
    && (forall k, s :: 0 <= k < |written| ==>
          var tp, g := RefTable(ins[k].0, s), RefId(written[k].0, s);
          tp in issued && 0 <= g < |issued[tp]| && issued[tp][g] == (who[k], RefId(ins[k].0, s)))
    && (forall k1, s1, k2, s2 :: 0 <= k1 < |written| && 0 <= k2 < |written| && who[k1] == who[k2]
          && RefTable(ins[k1].0, s1) == RefTable(ins[k2].0, s2) && RefId(ins[k1].0, s1) == RefId(ins[k2].0, s2)
          ==> RefId(written[k1].0, s1) == RefId(written[k2].0, s2))
  }

  /** The records from `base` on came from the live remapper `rid`, which still holds their ids. */
  ghost predicate HeldBy(written: seq<(TableLocation, TableRecord)>, ins: seq<(TableLocation, TableRecord)>, base: nat,
                         store: RemapStore, rid: nat)
    requires |written| == |ins|
  {
    forall k, s :: base <= k < |written| ==>
      Lookup(store, rid, RefTable(ins[k].0, s), RefId(ins[k].0, s)) == Some(RefId(written[k].0, s))
  }

  /**
   * Two ids of the output in the same table are equal exactly when they
   * come from the same reader and were equal there: ids of different
   * documents never collide, and references inside one document survive.
   */
  predicate IdsMatch(written: seq<(TableLocation, TableRecord)>, ins: seq<(TableLocation, TableRecord)>, who: seq<nat>)
    requires |written| <= |ins| && |written| <= |who|
  {
    forall k1, s1, k2, s2 :: (0 <= k1 < |written| && 0 <= k2 < |written| && RefTable(ins[k1].0, s1) == RefTable(ins[k2].0, s2)) ==>
      (RefId(written[k1].0, s1) == RefId(written[k2].0, s2) <==> who[k1] == who[k2] && RefId(ins[k1].0, s1) == RefId(ins[k2].0, s2))
  }

  /** The ids the remapper issued are what makes the output's ids match. */
  lemma {:induction false} RemappedIds(written: seq<(TableLocation, TableRecord)>, ins: seq<(TableLocation, TableRecord)>, who: seq<nat>,
                                       issued: map<seq<JsonPath>, seq<(nat, int)>>)
    requires Remapped(written, ins, who, issued)
    ensures IdsMatch(written, ins, who)
  {
    forall k1, s1, k2, s2 | 0 <= k1 < |written| && 0 <= k2 < |written| && RefTable(ins[k1].0, s1) == RefTable(ins[k2].0, s2)
      ensures RefId(written[k1].0, s1) == RefId(written[k2].0, s2) <==> who[k1] == who[k2] && RefId(ins[k1].0, s1) == RefId(ins[k2].0, s2)
    {
      var tp := RefTable(ins[k1].0, s1);
      assert issued[tp][RefId(written[k1].0, s1)] == (who[k1], RefId(ins[k1].0, s1));
      assert issued[tp][RefId(written[k2].0, s2)] == (who[k2], RefId(ins[k2].0, s2));
    }
  }

  /** One more record remapped by the live remapper keeps both invariants of the reading loop. */
  lemma {:induction false} RemapStep(written: seq<(TableLocation, TableRecord)>, ins: seq<(TableLocation, TableRecord)>, who: seq<nat>,
                                     base: nat, rid: nat, tables: map<seq<JsonPath>, int>,
                                     store: RemapStore, issued: map<seq<JsonPath>, seq<(nat, int)>>,
                                     store': RemapStore, issued': map<seq<JsonPath>, seq<(nat, int)>>,
                                     loc: TableLocation, out: TableLocation, rec: TableRecord)
    requires Remapped(written, ins, who, issued) && base <= |written| && HeldBy(written, ins, base, store, rid)
    requires forall k :: 0 <= k < |who| ==> (who[k] == rid <==> base <= k)
    requires Extends(store, issued, store', issued') && Inv(tables, store', issued')
    requires out.tablePath == loc.tablePath
    requires Lookup(store', rid, loc.tablePath, loc.objectId) == Some(out.objectId)
    requires Lookup(store', rid, loc.ParentTablePath(), loc.parentObjectId) == Some(out.parentObjectId)
    ensures Remapped(written + [(out, rec)], ins + [(loc, rec)], who + [rid], issued')
    ensures HeldBy(written + [(out, rec)], ins + [(loc, rec)], base, store', rid)
  {
    var w', i', h' := written + [(out, rec)], ins + [(loc, rec)], who + [rid];
    var n := |written|;
    forall k, s | base <= k < |w'|
      ensures Lookup(store', rid, RefTable(i'[k].0, s), RefId(i'[k].0, s)) == Some(RefId(w'[k].0, s))
    {
      if k < n {
        assert Lookup(store, rid, RefTable(ins[k].0, s), RefId(ins[k].0, s)) == Some(RefId(written[k].0, s));
      }
    }
    forall k, s | 0 <= k < |w'|
      ensures var tp, g := RefTable(i'[k].0, s), RefId(w'[k].0, s);
        tp in issued' && 0 <= g < |issued'[tp]| && issued'[tp][g] == (h'[k], RefId(i'[k].0, s))
    {
      var tp, g := RefTable(i'[k].0, s), RefId(w'[k].0, s);
      if k < n {
        assert issued[tp][g] == (who[k], RefId(ins[k].0, s));
        assert issued[tp] <= issued'[tp];
      } else {
        assert Lookup(store', rid, tp, RefId(loc, s)) == Some(g);
      }
    }
    forall k1, s1, k2, s2 | 0 <= k1 < |w'| && 0 <= k2 < |w'| && h'[k1] == h'[k2]
        && RefTable(i'[k1].0, s1) == RefTable(i'[k2].0, s2) && RefId(i'[k1].0, s1) == RefId(i'[k2].0, s2)
      ensures RefId(w'[k1].0, s1) == RefId(w'[k2].0, s2)
    {
      if k1 < n && k2 < n {
        assert RefId(written[k1].0, s1) == RefId(written[k2].0, s2);
      } else {
        assert base <= k1 && base <= k2;
      }
    }
  }

  /**
   * One reader's records, in the order its flattener emits them, each
   * written with its ids remapped by the live remapper `rid`; `numRecords`
   * counts them as the consumer closure of `read_to_db_many` does.
   */
  method ReadRecords(remapper: IdRemapper, rid: nat, records: seq<(TableLocation, TableRecord)>,
                     written0: seq<(TableLocation, TableRecord)>, ghost ins0: seq<(TableLocation, TableRecord)>, ghost who0: seq<nat>)
      returns (written: seq<(TableLocation, TableRecord)>, numRecords: nat, ghost ins: seq<(TableLocation, TableRecord)>, ghost who: seq<nat>)
    requires remapper.Valid() && remapper.remapStore.Keys == {rid}
    requires Remapped(written0, ins0, who0, remapper.issued) && forall k :: 0 <= k < |who0| ==> who0[k] != rid
    modifies remapper`tables, remapper`remapStore, remapper`issued
    ensures remapper.Valid() && remapper.remapStore.Keys == {rid}
    ensures numRecords == |records| && ins == ins0 + records && who == who0 + seq(|records|, _ => rid)
    ensures Remapped(written, ins, who, remapper.issued)
  {
    written, ins, who := written0, ins0, who0;
    numRecords := 0;
    var base := |written0|;
    while numRecords < |records|
      invariant numRecords <= |records| && |written| == base + numRecords
      invariant ins == ins0 + records[..numRecords] && who == who0 + seq(numRecords, _ => rid)
      invariant remapper.Valid() && remapper.remapStore.Keys == {rid}
      invariant Remapped(written, ins, who, remapper.issued) && HeldBy(written, ins, base, remapper.remapStore, rid)
    {
      ghost var store, issued := remapper.remapStore, remapper.issued;
      var loc := remapper.RemapIds(rid, records[numRecords].0);
      RemapStep(written, ins, who, base, rid, remapper.tables, store, issued, remapper.remapStore, remapper.issued,
                records[numRecords].0, loc.value, records[numRecords].1);
      written := written + [(loc.value, records[numRecords].1)];
      ins, who := ins + [records[numRecords]], who + [rid];
      numRecords := numRecords + 1;
    }
    assert records[..numRecords] == records;
  }

  /**
   * `read_to_db_many`: the readers are read one after the other, each with
   * its own remapper, every record is written with its ids remapped, and
   * the callback gets each reader's number of records. The records a
   * reader's flattener emits are given as `readers[i]`; `written` is what
   * the database receives, in order, and `counts` what the callback
   * receives.
   */
  method ReadToDbMany(readers: seq<seq<(TableLocation, TableRecord)>>) returns (written: seq<(TableLocation, TableRecord)>, counts: seq<nat>)
    ensures |counts| == |readers| && forall i :: 0 <= i < |readers| ==> counts[i] == |readers[i]|
    ensures |written| == |Flatten(readers)|
    ensures forall k :: 0 <= k < |written| ==>
      written[k].1 == Flatten(readers)[k].1 && written[k].0.tablePath == Flatten(readers)[k].0.tablePath
    ensures IdsMatch(written, Flatten(readers), ReaderIndices(readers))
  {
    var remapper := new IdRemapper();
    written, counts := [], [];
    ghost var ins: seq<(TableLocation, TableRecord)> := [];
    ghost var who: seq<nat> := [];
    var i := 0;
    while i < |readers|
      invariant 0 <= i <= |readers|
      invariant |counts| == i && forall i' :: 0 <= i' < i ==> counts[i'] == |readers[i']|
      invariant ins == Flatten(readers[..i]) && who == ReaderIndices(readers[..i])
      invariant remapper.Valid() && remapper.FreshIds() && remapper.nextRemapper == i && remapper.remapStore == map[]
      invariant Remapped(written, ins, who, remapper.issued)
    {
      var rid := remapper.StartFreshRemapper();
      var numRecords;
      written, numRecords, ins, who := ReadRecords(remapper, rid, readers[i], written, ins, who);
      remapper.FinishRemapper(rid);
      assert remapper.nextRemapper == i + 1;
      counts := counts + [numRecords];
      assert forall i' :: 0 <= i' <= i ==> counts[i'] == |readers[i']|;
      ReadersSnoc(readers, i);
      i := i + 1;
    }
    assert readers[..|readers|] == readers;
    RemappedIds(written, ins, who, remapper.issued);
  }
}
