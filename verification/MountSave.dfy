/** Saving a cache, and what saving and restoring does to it.

    The program walks hash and tree maps; `Orders` is any order in which they may
    be walked. */
module MountSave {
  import opened Bytes
  import opened BinaryBuilder
  import opened MountCache
  import opened MountImage

  datatype Orders = Orders(
    mounts: seq<u64>, queries: seq<OctetString>, clients: seq<OctetString>, ids: map<OctetString, seq<u64>>)

  /** Each key once. */
  ghost predicate Enumerates<T(!new)>(order: seq<T>, keys: set<T>)
  {
    && (forall i, j :: 0 <= i < j < |order| ==> order[i] != order[j])
    && (forall x :: x in order <==> x in keys)
  }

  ghost predicate OrdersFit(o: Orders, st: CacheState)
  {
    && Enumerates(o.mounts, st.mounts.Keys)
    && Enumerates(o.queries, st.queries.Keys)
    && Enumerates(o.clients, st.clientMounts.Keys)
    && forall c :: c in st.clientMounts ==> c in o.ids && Enumerates(o.ids[c], st.clientMounts[c])
  }

  lemma {:induction false} EnumeratesSize<T(!new)>(order: seq<T>, keys: set<T>)
    requires Enumerates(order, keys)
    ensures |order| == |keys|
    decreases |order|
  {
    if order == [] {
    } else {
      var rest := order[1..];
      forall x ensures x in rest <==> x in keys - {order[0]} {
        if x in keys && x != order[0] {
          assert x in order;
        }
      }
      assert Enumerates(rest, keys - {order[0]});
      EnumeratesSize(rest, keys - {order[0]});
    }
  }

  // ----- the records of a cache -----

  function PathsOf(mounts: MountMap, order: seq<u64>): (rs: seq<PathRecord>)
    requires forall i :: 0 <= i < |order| ==> order[i] in mounts
    ensures |rs| == |order|
    ensures forall i :: 0 <= i < |order| ==> rs[i] == PathRecord(order[i], mounts[order[i]].path)
  {
    if order == [] then []
    else PathsOf(mounts, order[..|order| - 1])
         + [PathRecord(order[|order| - 1], mounts[order[|order| - 1]].path)]
  }

  function QueriesOf(queries: QueryMap, order: seq<OctetString>): (rs: seq<QueryRecord>)
    requires forall i :: 0 <= i < |order| ==> order[i] in queries
    ensures |rs| == |order|
    ensures forall i :: 0 <= i < |order| ==> rs[i] == QueryRecord(order[i], queries[order[i]])
  {
    if order == [] then []
    else QueriesOf(queries, order[..|order| - 1])
         + [QueryRecord(order[|order| - 1], queries[order[|order| - 1]])]
  }

  function ClientsOf(ids: map<OctetString, seq<u64>>, order: seq<OctetString>): (rs: seq<ClientRecord>)
    requires forall i :: 0 <= i < |order| ==> order[i] in ids
    ensures |rs| == |order|
    ensures forall i :: 0 <= i < |order| ==> rs[i] == ClientRecord(order[i], ids[order[i]])
  {
    if order == [] then []
    else ClientsOf(ids, order[..|order| - 1]) + [ClientRecord(order[|order| - 1], ids[order[|order| - 1]])]
  }

  lemma OrdersInRange(o: Orders, st: CacheState)
    requires OrdersFit(o, st)
    ensures forall i :: 0 <= i < |o.mounts| ==> o.mounts[i] in st.mounts
    ensures forall i :: 0 <= i < |o.queries| ==> o.queries[i] in st.queries
    ensures forall i :: 0 <= i < |o.clients| ==> o.clients[i] in st.clientMounts && o.clients[i] in o.ids
  {
    forall i | 0 <= i < |o.mounts| ensures o.mounts[i] in st.mounts.Keys {
      assert o.mounts[i] in o.mounts;
    }
    forall i | 0 <= i < |o.queries| ensures o.queries[i] in st.queries.Keys {
      assert o.queries[i] in o.queries;
    }
    forall i | 0 <= i < |o.clients| ensures o.clients[i] in st.clientMounts.Keys && o.clients[i] in o.ids {
      assert o.clients[i] in o.clients;
    }
  }

  /** The records of a cache in the order in which they are written. */
  ghost function Snapshot(st: CacheState, o: Orders): Image
    requires OrdersFit(o, st)
  {
    OrdersInRange(o, st);
    Image(PathsOf(st.mounts, o.mounts), QueriesOf(st.queries, o.queries), ClientsOf(o.ids, o.clients))
  }

  // ----- saving -----

  lemma {:induction false} EncPathsSnoc(rs: seq<PathRecord>, r: PathRecord)
    ensures EncPaths(rs + [r]) == EncPaths(rs) + EncPath(r)
  {
    hide EncPath;
    if rs == [] {
      assert [r][1..] == [] && EncPaths([r]) == EncPath(r) + EncPaths([]);
    } else {
      assert (rs + [r])[1..] == rs[1..] + [r];
      EncPathsSnoc(rs[1..], r);
    }
  }

  lemma {:induction false} EncQueriesSnoc(rs: seq<QueryRecord>, r: QueryRecord)
    ensures EncQueries(rs + [r]) == EncQueries(rs) + EncQuery(r)
  {
    hide EncQuery;
    if rs == [] {
      assert [r][1..] == [] && EncQueries([r]) == EncQuery(r) + EncQueries([]);
    } else {
      assert (rs + [r])[1..] == rs[1..] + [r];
      EncQueriesSnoc(rs[1..], r);
    }
  }

  lemma {:induction false} EncClientsSnoc(rs: seq<ClientRecord>, r: ClientRecord)
    ensures EncClients(rs + [r]) == EncClients(rs) + EncClient(r)
  {
    hide EncClient;
    if rs == [] {
      assert [r][1..] == [] && EncClients([r]) == EncClient(r) + EncClients([]);
    } else {
      assert (rs + [r])[1..] == rs[1..] + [r];
      EncClientsSnoc(rs[1..], r);
    }
  }

  lemma {:induction false} EncIdsSnoc(ids: seq<u64>, id: u64)
    ensures EncIds(ids + [id]) == EncIds(ids) + Be(id, 8)
  {
    hide Be;
    if ids == [] {
      assert [id][1..] == [] && EncIds([id]) == Be(id, 8) + EncIds([]);
    } else {
      assert (ids + [id])[1..] == ids[1..] + [id];
      EncIdsSnoc(ids[1..], id);
    }
  }

  method SavePaths(builder: Builder, mounts: MountMap, order: seq<u64>)
    requires builder.AtEnd()
    requires forall i :: 0 <= i < |order| ==> order[i] in mounts
    modifies builder
    ensures builder.AtEnd()
    ensures builder.binary == old(builder.binary) + EncPaths(PathsOf(mounts, order))
  {
    hide EncPaths, EncPath, Overlay, Be, WBytes;
    ghost var was := builder.binary;
    assert EncPaths([]) == [] by { NoPaths(); }
    for i := 0 to |order|
      invariant builder.AtEnd()
      invariant builder.binary == was + EncPaths(PathsOf(mounts, order[..i]))
    {
      var id := order[i];
      var path := mounts[id].path;
      ghost var before := builder.binary;
      builder.Append64(id);
      builder.Append32(|path|);
      builder.AppendBinary(WBytes(path));
      assert order[..i + 1][..i] == order[..i];
      EncPathsSnoc(PathsOf(mounts, order[..i]), PathRecord(id, path));
      PathBytes(before, PathRecord(id, path));
      Regroup(was, EncPaths(PathsOf(mounts, order[..i])), EncPath(PathRecord(id, path)));
    }
    assert order[..|order|] == order;
  }

  lemma NoPaths()
    ensures EncPaths([]) == []
  {}

  lemma PathBytes(before: seq<byte>, r: PathRecord)
    ensures before + Be(r.id, 8) + Be(|r.path|, 4) + WBytes(r.path) == before + EncPath(r)
  {
    hide Be, WBytes;
  }

  method SaveQueries(builder: Builder, queries: QueryMap, order: seq<OctetString>)
    requires builder.AtEnd()
    requires forall i :: 0 <= i < |order| ==> order[i] in queries
    modifies builder
    ensures builder.AtEnd()
    ensures builder.binary == old(builder.binary) + EncQueries(QueriesOf(queries, order))
  {
    hide EncQueries, EncQuery, Overlay, Be;
    ghost var was := builder.binary;
    assert EncQueries([]) == [] by { NoQueries(); }
    for i := 0 to |order|
      invariant builder.AtEnd()
      invariant builder.binary == was + EncQueries(QueriesOf(queries, order[..i]))
    {
      var query := order[i];
      ghost var before := builder.binary;
      builder.Append32(|query|);
      builder.AppendBinary(query);
      builder.Append64(queries[query]);
      assert order[..i + 1][..i] == order[..i];
      ghost var r := QueryRecord(query, queries[query]);
      EncQueriesSnoc(QueriesOf(queries, order[..i]), r);
      QueryBytes(before, r);
      Regroup(was, EncQueries(QueriesOf(queries, order[..i])), EncQuery(r));
    }
    assert order[..|order|] == order;
  }

  lemma NoQueries()
    ensures EncQueries([]) == []
  {}

  lemma QueryBytes(before: seq<byte>, r: QueryRecord)
    ensures before + Be(|r.query|, 4) + r.query + Be(r.id, 8) == before + EncQuery(r)
  {
    hide Be;
  }

  method SaveIds(builder: Builder, ids: seq<u64>)
    requires builder.AtEnd()
    modifies builder
    ensures builder.AtEnd()
    ensures builder.binary == old(builder.binary) + EncIds(ids)
  {
    hide EncIds, Overlay, Be;
    ghost var was := builder.binary;
    assert EncIds([]) == [];
    for j := 0 to |ids|
      invariant builder.AtEnd()
      invariant builder.binary == was + EncIds(ids[..j])
    {
      builder.Append64(ids[j]);
      assert ids[..j + 1] == ids[..j] + [ids[j]];
      EncIdsSnoc(ids[..j], ids[j]);
    }
    assert ids[..|ids|] == ids;
  }

  method SaveClients(
    builder: Builder, clientMounts: ClientMounts, ids: map<OctetString, seq<u64>>, order: seq<OctetString>)
    requires builder.AtEnd()
    requires forall i :: 0 <= i < |order| ==>
      order[i] in ids && order[i] in clientMounts && |ids[order[i]]| == |clientMounts[order[i]]|
    modifies builder
    ensures builder.AtEnd()
    ensures builder.binary == old(builder.binary) + EncClients(ClientsOf(ids, order))
  {
    hide EncClients, EncClient, EncIds, Overlay, Be;
    ghost var was := builder.binary;
    assert EncClients([]) == [] by { NoClients(); }
    for i := 0 to |order|
      invariant builder.AtEnd()
      invariant builder.binary == was + EncClients(ClientsOf(ids, order[..i]))
    {
      var client := order[i];
      ghost var before := builder.binary;
      builder.Append32(|client|);
      builder.AppendBinary(client);
      builder.Append32(|clientMounts[client]|);
      SaveIds(builder, ids[client]);
      assert order[..i + 1][..i] == order[..i];
      ghost var r := ClientRecord(client, ids[client]);
      EncClientsSnoc(ClientsOf(ids, order[..i]), r);
      ClientBytes(before, r);
      Regroup(was, EncClients(ClientsOf(ids, order[..i])), EncClient(r));
    }
    assert order[..|order|] == order;
  }

  lemma NoClients()
    ensures EncClients([]) == []
  {}

  lemma ClientBytes(before: seq<byte>, r: ClientRecord)
    ensures before + Be(|r.client|, 4) + r.client + Be(|r.ids|, 4) + EncIds(r.ids) == before + EncClient(r)
  {
    hide Be, EncIds;
  }

  /** safe_save, walking the maps in the given orders. */
  method SafeSave(cache: MountCache, o: Orders) returns (binary: seq<byte>)
    requires OrdersFit(o, cache.State())
    ensures binary == EncImage(Snapshot(cache.State(), o))
  {
    ghost var st := cache.State();
    OrdersInRange(o, st);
    EnumeratesSize(o.mounts, st.mounts.Keys);
    EnumeratesSize(o.queries, st.queries.Keys);
    EnumeratesSize(o.clients, st.clientMounts.Keys);
    forall i | 0 <= i < |o.clients| ensures |o.ids[o.clients[i]]| == |st.clientMounts[o.clients[i]]| {
      EnumeratesSize(o.ids[o.clients[i]], st.clientMounts[o.clients[i]]);
    }
    hide EncPaths, EncQueries, EncClients, Overlay, Be;
    var builder := new Builder();
    builder.Append32(|cache.mountMap|);
    SavePaths(builder, cache.mountMap, o.mounts);
    builder.Append32(|cache.queryMap|);
    SaveQueries(builder, cache.queryMap, o.queries);
    builder.Append32(|cache.clientMounts|);
    SaveClients(builder, cache.clientMounts, o.ids, o.clients);
    binary := builder.binary;
    ghost var i := Snapshot(st, o);
    ImageBytes(i);
    assert |i.paths| == |cache.mountMap.Keys| == |cache.mountMap|;
    assert |i.queries| == |cache.queryMap.Keys| == |cache.queryMap|;
    assert |i.clients| == |cache.clientMounts.Keys| == |cache.clientMounts|;
  }

  lemma ImageBytes(i: Image)
    ensures [] + Be(|i.paths|, 4) + EncPaths(i.paths) + Be(|i.queries|, 4) + EncQueries(i.queries)
            + Be(|i.clients|, 4) + EncClients(i.clients) == EncImage(i)
  {
    hide EncPaths, EncQueries, EncClients, Be;
  }
}
