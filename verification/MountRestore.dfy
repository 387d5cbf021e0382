/** What a saved and restored cache keeps: everything, when every saved path
    opens to itself again. */
module MountRestore {
  import opened Bytes
  import opened MountCache
  import opened MountImage
  import opened MountSave

  /** The saved path of every mount opens to the object it was mounted for. */
  ghost predicate Reopens(fs: FileSystem, mounts: MountMap)
  {
    forall id :: id in mounts ==> ReopensOne(fs, mounts, id)
  }

  ghost predicate ReopensOne(fs: FileSystem, mounts: MountMap, id: u64)
    requires id in mounts
  {
    var entry := mounts[id];
    fs(entry.path).Some? && Names(entry, id, fs(entry.path).value)
  }

  /** The last of all ids, whose successor wraps around to zero. */
  const TOP_ID: u64 := TWO_64 - 1

  // ----- replaying keeps the invariant -----

  lemma RestorePathInv(st: CacheState, fs: FileSystem, r: PathRecord)
    requires Inv(st)
    ensures Inv(RestorePath(st, fs, r))
  {
    hide HandlesOwn, WindowsIndexed, QueriesIndexed, ClientsIndexed, MountWindowsPath;
    MountWindowsPathInv(st, fs, r.id, r.path);
  }

  lemma RestoreQueryInv(st: CacheState, r: QueryRecord)
    requires Inv(st)
    ensures Inv(RestoreQuery(st, r))
  {}

  lemma RestoreSenderInv(st: CacheState, client: OctetString, id: u64)
    requires Inv(st)
    ensures Inv(RestoreSender(st, client, id))
  {
    hide HandlesOwn, WindowsIndexed, QueriesIndexed, ClientsIndexed, MountSender;
    if id in st.mounts {
      MountSenderInv(st, client, id);
    }
  }

  /** Restoring any bytes whatever keeps the invariant of the cache. */
  lemma RestoredInv(st: CacheState, fs: FileSystem, binary: seq<byte>)
    requires Inv(st)
    ensures Inv(Restored(st, fs, binary))
  {
    hide Inv, RestorePaths, RestoreQueries, RestoreClients;
    var v := BinaryReader.Whole(binary);
    RestorePathsInv(st, fs, v, Add32(0, 4), v.Get32(0));
    var (s1, o1) := RestorePaths(st, fs, v, Add32(0, 4), v.Get32(0));
    RestoreQueriesInv(s1, v, Add32(o1, 4), v.Get32(o1));
    var (s2, o2) := RestoreQueries(s1, v, Add32(o1, 4), v.Get32(o1));
    RestoreClientsInv(s2, v, Add32(o2, 4), v.Get32(o2));
  }

  lemma {:induction false} RestorePathsInv(st: CacheState, fs: FileSystem, v: BinaryReader.View, offset: u32, n: nat)
    requires Inv(st)
    ensures Inv(RestorePaths(st, fs, v, offset, n).0)
    decreases n
  {
    hide Inv, RestorePath, PathAt;
    if n == 0 {
    } else {
      var (r, next) := PathAt(v, offset);
      RestorePathInv(st, fs, r);
      RestorePathsInv(RestorePath(st, fs, r), fs, v, next, n - 1);
    }
  }

  lemma {:induction false} RestoreQueriesInv(st: CacheState, v: BinaryReader.View, offset: u32, n: nat)
    requires Inv(st)
    ensures Inv(RestoreQueries(st, v, offset, n).0)
    decreases n
  {
    hide Inv, RestoreQuery, QueryAt;
    if n == 0 {
    } else {
      var (r, next) := QueryAt(v, offset);
      RestoreQueryInv(st, r);
      RestoreQueriesInv(RestoreQuery(st, r), v, next, n - 1);
    }
  }

  lemma {:induction false} RestoreIdsInv(st: CacheState, client: OctetString, v: BinaryReader.View, offset: u32, n: nat)
    requires Inv(st)
    ensures Inv(RestoreIds(st, client, v, offset, n).0)
    decreases n
  {
    hide Inv, RestoreSender;
    if n == 0 {
    } else {
      RestoreSenderInv(st, client, v.Get64(offset));
      RestoreIdsInv(RestoreSender(st, client, v.Get64(offset)), client, v, Add32(offset, 8), n - 1);
    }
  }

  lemma {:induction false} RestoreClientsInv(st: CacheState, v: BinaryReader.View, offset: u32, n: nat)
    requires Inv(st)
    ensures Inv(RestoreClients(st, v, offset, n).0)
    decreases n
  {
    hide Inv, RestoreIds;
    if n == 0 {
    } else {
      var size := v.Get32(offset);
      var behind := Add32(Add32(offset, 4), size);
      RestoreIdsInv(st, v.Slice(Add32(offset, 4), size), v, Add32(behind, 4), v.Get32(behind));
      var (after, next) := RestoreClient(st, v, offset);
      RestoreClientsInv(after, v, next, n - 1);
    }
  }

  // ----- replaying the paths -----

  /** The mounts without their clients. */
  function Stripped(mounts: MountMap): MountMap
  {
    map id | id in mounts :: mounts[id].(clients := {})
  }

  lemma {:induction false} ReplayPathsKeeps(st: CacheState, fs: FileSystem, rs: seq<PathRecord>)
    ensures var r := ReplayPaths(st, fs, rs);
            r.queries == st.queries && r.clientMounts == st.clientMounts
    ensures Inv(st) ==> Inv(ReplayPaths(st, fs, rs))
    decreases rs
  {
    hide Inv;
    if rs == [] {
    } else {
      if Inv(st) {
        RestorePathInv(st, fs, rs[0]);
      }
      ReplayPathsKeeps(RestorePath(st, fs, rs[0]), fs, rs[1..]);
    }
  }

  /** rs are the records of mounts, each id once. */
  ghost predicate RecordsOf(rs: seq<PathRecord>, mounts: MountMap)
  {
    && (forall i :: 0 <= i < |rs| ==> rs[i].id in mounts && rs[i].path == mounts[rs[i].id].path)
    && (forall i, j :: 0 <= i < j < |rs| ==> rs[i].id != rs[j].id)
  }

  function RecordIds(rs: seq<PathRecord>): set<u64>
  {
    set i | 0 <= i < |rs| :: rs[i].id
  }

  lemma RecordsTail(rs: seq<PathRecord>, mounts: MountMap)
    requires rs != [] && RecordsOf(rs, mounts)
    ensures RecordsOf(rs[1..], mounts)
    ensures rs[0].id !in RecordIds(rs[1..]) && RecordIds(rs) == {rs[0].id} + RecordIds(rs[1..])
  {
    forall id | id in RecordIds(rs) ensures id == rs[0].id || id in RecordIds(rs[1..]) {
      var i :| 0 <= i < |rs| && rs[i].id == id;
      if i > 0 {
        assert rs[1..][i - 1].id == id;
      }
    }
    forall id | id in RecordIds(rs[1..]) ensures id in RecordIds(rs) && id != rs[0].id {
      var i :| 0 <= i < |rs| - 1 && rs[1..][i].id == id;
      assert rs[i + 1].id == id;
    }
    assert rs[0].id in RecordIds(rs);
  }

  /** Replaying the records of mounts that reopen files each of them anew. */
  lemma {:induction false} ReplayPathsMounts(st: CacheState, fs: FileSystem, rs: seq<PathRecord>, mounts: MountMap)
    requires Reopens(fs, mounts) && RecordsOf(rs, mounts)
    requires RecordIds(rs) !! st.mounts.Keys
    ensures var r := ReplayPaths(st, fs, rs);
            && r.mounts.Keys == st.mounts.Keys + RecordIds(rs)
            && (forall id :: id in st.mounts ==> r.mounts[id] == st.mounts[id])
            && (forall id :: id in RecordIds(rs) ==> id in mounts && r.mounts[id] == mounts[id].(clients := {}))
    decreases rs
  {
    if rs == [] {
    } else {
      var first := RestorePath(st, fs, rs[0]);
      RecordsTail(rs, mounts);
      assert rs[0].id in RecordIds(rs);
      assert ReopensOne(fs, mounts, rs[0].id);
      var o := fs(rs[0].path).value;
      NewEntryNames(rs[0].id, o);
      NamesOnce(NewEntry(rs[0].id, o), mounts[rs[0].id], rs[0].id, o);
      hide NewEntry, Reopens, Names;
      assert first.mounts == st.mounts[rs[0].id := mounts[rs[0].id].(clients := {})];
      hide RestorePath, RecordsOf;
      ReplayPathsMounts(first, fs, rs[1..], mounts);
    }
  }

  /** The next id ends one above the greatest replayed, unless it was there before;
      the last of all ids has no successor and does not count. */
  lemma {:induction false} ReplayPathsNext(st: CacheState, fs: FileSystem, rs: seq<PathRecord>)
    ensures var r := ReplayPaths(st, fs, rs);
            && st.next <= r.next
            && (forall i :: 0 <= i < |rs| && rs[i].id != TOP_ID ==> rs[i].id < r.next)
            && (r.next == st.next || exists i :: 0 <= i < |rs| && rs[i].id != TOP_ID && rs[i].id + 1 == r.next)
    decreases rs
  {
    if rs == [] {
    } else {
      var first, rest := RestorePath(st, fs, rs[0]), rs[1..];
      assert first.next == NextAfter(rs[0].id, st.next);
      ReplayPathsNext(first, fs, rest);
      var r := ReplayPaths(st, fs, rs);
      assert r == ReplayPaths(first, fs, rest);
      hide ReplayPaths, RestorePath;
      forall i | 0 <= i < |rs| && rs[i].id != TOP_ID ensures rs[i].id < r.next {
        if i > 0 {
          assert rest[i - 1] == rs[i];
        }
      }
      if r.next == first.next {
        assert r.next != st.next ==> rs[0].id != TOP_ID && rs[0].id + 1 == r.next;
      } else {
        var i :| 0 <= i < |rest| && rest[i].id != TOP_ID && rest[i].id + 1 == r.next;
        assert rs[i + 1] == rest[i];
      }
    }
  }

  // ----- replaying the queries -----

  lemma {:induction false} ReplayQueriesResult(st: CacheState, rs: seq<QueryRecord>, queries: QueryMap)
    requires forall i :: 0 <= i < |rs| ==> rs[i].query in queries && rs[i].id == queries[rs[i].query]
    requires forall q :: q in st.queries ==> q in queries && st.queries[q] == queries[q] && queries[q] in st.mounts
    ensures var r := ReplayQueries(st, rs);
            && r.mounts == st.mounts && r.clientMounts == st.clientMounts
            && r.next == st.next && r.windows == st.windows
            && (forall q :: q in r.queries ==> q in queries && r.queries[q] == queries[q] && queries[q] in st.mounts)
            && (forall q :: q in st.queries ==> q in r.queries)
            && (forall i :: 0 <= i < |rs| && rs[i].id in st.mounts ==> rs[i].query in r.queries)
    ensures Inv(st) ==> Inv(ReplayQueries(st, rs))
    decreases rs
  {
    hide Inv;
    if rs == [] {
    } else {
      assert rs[0].query in queries;
      var first := RestoreQuery(st, rs[0]);
      if Inv(st) {
        RestoreQueryInv(st, rs[0]);
      }
      ReplayQueriesResult(first, rs[1..], queries);
      var r := ReplayQueries(st, rs);
      forall i | 0 <= i < |rs| && rs[i].id in st.mounts ensures rs[i].query in r.queries {
        if i > 0 {
          assert rs[1..][i - 1] == rs[i];
        }
      }
    }
  }

  // ----- replaying the clients -----

  /** b has the mounts of a, with at most their clients changed. */
  ghost predicate SameMounts(a: MountMap, b: MountMap)
  {
    a.Keys == b.Keys && forall id :: id in a ==> b[id].path == a[id].path && b[id].handle == a[id].handle
  }

  lemma RestoreSenderResult(st: CacheState, client: OctetString, id: u64)
    ensures var r := RestoreSender(st, client, id);
            && SameMounts(st.mounts, r.mounts)
            && r.queries == st.queries && r.next == st.next && r.windows == st.windows
            && forall m, c :: m in st.mounts ==>
                 (c in r.mounts[m].clients <==> c in st.mounts[m].clients || (c == client && m == id))
  {}

  lemma {:induction false} ReplayIdsResult(st: CacheState, client: OctetString, ids: seq<u64>)
    ensures var r := ReplayIds(st, client, ids);
            && SameMounts(st.mounts, r.mounts)
            && r.queries == st.queries && r.next == st.next && r.windows == st.windows
            && (forall m, c :: m in st.mounts ==>
                  (c in r.mounts[m].clients <==> c in st.mounts[m].clients || (c == client && m in ids)))
    ensures Inv(st) ==> Inv(ReplayIds(st, client, ids))
    decreases ids
  {
    hide Inv;
    if ids == [] {
    } else {
      var first := RestoreSender(st, client, ids[0]);
      RestoreSenderResult(st, client, ids[0]);
      if Inv(st) {
        RestoreSenderInv(st, client, ids[0]);
      }
      hide RestoreSender;
      ReplayIdsResult(first, client, ids[1..]);
      forall m ensures m in ids <==> m == ids[0] || m in ids[1..] {
        assert ids == [ids[0]] + ids[1..];
      }
    }
  }

  /** The client c is listed with the id by some record. */
  ghost predicate Listed(rs: seq<ClientRecord>, c: OctetString, id: u64)
  {
    exists i :: 0 <= i < |rs| && rs[i].client == c && id in rs[i].ids
  }

  lemma ListedHead(rs: seq<ClientRecord>, c: OctetString, id: u64)
    requires rs != []
    ensures Listed(rs, c, id) <==> (rs[0].client == c && id in rs[0].ids) || Listed(rs[1..], c, id)
  {
    if Listed(rs, c, id) {
      var i :| 0 <= i < |rs| && rs[i].client == c && id in rs[i].ids;
      if i > 0 {
        assert rs[1..][i - 1] == rs[i];
      }
    }
    if Listed(rs[1..], c, id) {
      var i :| 0 <= i < |rs| - 1 && rs[1..][i].client == c && id in rs[1..][i].ids;
      assert rs[i + 1] == rs[1..][i];
    }
  }

  lemma {:induction false} ReplayClientsResult(st: CacheState, rs: seq<ClientRecord>)
    ensures var r := ReplayClients(st, rs);
            && SameMounts(st.mounts, r.mounts)
            && r.queries == st.queries && r.next == st.next && r.windows == st.windows
            && (forall id, c :: id in st.mounts ==>
                  (c in r.mounts[id].clients <==> c in st.mounts[id].clients || Listed(rs, c, id)))
    ensures Inv(st) ==> Inv(ReplayClients(st, rs))
    decreases rs
  {
    hide Inv;
    if rs == [] {
    } else {
      var first := ReplayIds(st, rs[0].client, rs[0].ids);
      ReplayIdsResult(st, rs[0].client, rs[0].ids);
      ReplayClientsResult(first, rs[1..]);
      var r := ReplayClients(st, rs);
      hide Listed;
      forall id, c | id in st.mounts
        ensures c in r.mounts[id].clients <==> c in st.mounts[id].clients || Listed(rs, c, id)
      {
        ListedHead(rs, c, id);
      }
    }
  }

  // ----- the whole round trip -----

  /** Two caches with the same mounts that keep the invariant list the same
      mounts at each client. */
  lemma ClientMountsDetermined(a: CacheState, b: CacheState)
    requires a.mounts == b.mounts
    requires ClientsIndexed(a.mounts, a.clientMounts) && ClientsIndexed(b.mounts, b.clientMounts)
    ensures a.clientMounts == b.clientMounts
  {
    forall c
      ensures c in a.clientMounts <==> c in b.clientMounts
      ensures c in a.clientMounts ==> a.clientMounts[c] == b.clientMounts[c]
    {
      forall id: u64 ensures id in ClientSet(a.clientMounts, c) <==> id in ClientSet(b.clientMounts, c) {
        if id in a.mounts {
          assert c in a.mounts[id].clients <==> id in ClientSet(a.clientMounts, c);
          assert c in b.mounts[id].clients <==> id in ClientSet(b.clientMounts, c);
        }
      }
      assert ClientSet(a.clientMounts, c) == ClientSet(b.clientMounts, c);
    }
  }

  lemma SnapshotPaths(st: CacheState, o: Orders)
    requires OrdersFit(o, st)
    ensures RecordsOf(Snapshot(st, o).paths, st.mounts) && RecordIds(Snapshot(st, o).paths) == st.mounts.Keys
  {
    OrdersInRange(o, st);
    var rs := Snapshot(st, o).paths;
    forall id | id in st.mounts ensures id in RecordIds(rs) {
      assert id in o.mounts;
      var i :| 0 <= i < |o.mounts| && o.mounts[i] == id;
      assert rs[i].id == id;
    }
  }

  lemma SnapshotQueries(st: CacheState, o: Orders)
    requires OrdersFit(o, st)
    ensures var rs := Snapshot(st, o).queries;
            && (forall i :: 0 <= i < |rs| ==> rs[i].query in st.queries && rs[i].id == st.queries[rs[i].query])
            && (forall q :: q in st.queries ==> exists i :: 0 <= i < |rs| && rs[i].query == q)
  {
    OrdersInRange(o, st);
    var rs := Snapshot(st, o).queries;
    forall q | q in st.queries ensures exists i :: 0 <= i < |rs| && rs[i].query == q {
      assert q in o.queries;
      var i :| 0 <= i < |o.queries| && o.queries[i] == q;
      assert rs[i].query == q;
    }
  }

  lemma SnapshotClients(st: CacheState, o: Orders)
    requires OrdersFit(o, st)
    ensures var rs := Snapshot(st, o).clients;
            && (forall c, id :: Listed(rs, c, id) <==> id in ClientSet(st.clientMounts, c))
            && (forall i :: 0 <= i < |rs| ==>
                  rs[i].client in st.clientMounts
                  && forall j :: 0 <= j < |rs[i].ids| ==> rs[i].ids[j] in st.clientMounts[rs[i].client])
  {
    OrdersInRange(o, st);
    var rs := Snapshot(st, o).clients;
    forall i | 0 <= i < |rs|
      ensures rs[i].client in st.clientMounts
      ensures forall j :: 0 <= j < |rs[i].ids| ==> rs[i].ids[j] in st.clientMounts[rs[i].client]
    {
      var c := rs[i].client;
      assert c == o.clients[i] && rs[i].ids == o.ids[c];
      forall j | 0 <= j < |rs[i].ids| ensures rs[i].ids[j] in st.clientMounts[c] {
        assert o.ids[c][j] in o.ids[c];
      }
    }
    forall c, id ensures Listed(rs, c, id) <==> id in ClientSet(st.clientMounts, c) {
      if Listed(rs, c, id) {
        var i :| 0 <= i < |rs| && rs[i].client == c && id in rs[i].ids;
        assert id in o.ids[c];
      }
      if id in ClientSet(st.clientMounts, c) {
        assert c in o.clients;
        var i :| 0 <= i < |o.clients| && o.clients[i] == c;
        assert rs[i].client == c && id in rs[i].ids;
      }
    }
  }

  /** Different mounts have different paths. */
  ghost predicate PathsDistinct(mounts: MountMap)
  {
    forall a, b :: a in mounts && b in mounts && mounts[a].path == mounts[b].path ==> a == b
  }

  /** The path indexes of two caches with the same mounts have the same keys, and
      agree where no two mounts share a path. */
  lemma WindowsDetermined(a: CacheState, b: CacheState)
    requires a.mounts == b.mounts
    requires WindowsIndexed(a.mounts, a.windows) && WindowsIndexed(b.mounts, b.windows)
    ensures a.windows.Keys == b.windows.Keys
    ensures PathsDistinct(a.mounts) ==> a.windows == b.windows
  {
    forall w ensures w in a.windows <==> w in b.windows {
      if w in a.windows {
        assert b.mounts[a.windows[w]].path in b.windows;
      }
      if w in b.windows {
        assert a.mounts[b.windows[w]].path in a.windows;
      }
    }
  }

  /** The image of a cache, restored into a new one. */
  ghost function Restart(st: CacheState, o: Orders, fs: FileSystem): CacheState
    requires OrdersFit(o, st)
  {
    Restored(NewCache(), fs, EncImage(Snapshot(st, o)))
  }

  ghost predicate ImageFits(st: CacheState, o: Orders)
    requires OrdersFit(o, st)
  {
    |EncImage(Snapshot(st, o))| < TWO_32
  }

  lemma PathStage(st: CacheState, o: Orders, fs: FileSystem)
    requires Inv(st) && OrdersFit(o, st) && Reopens(fs, st.mounts)
    ensures var s1 := ReplayPaths(NewCache(), fs, Snapshot(st, o).paths);
            s1.mounts == Stripped(st.mounts) && s1.queries == map[] && Inv(s1)
  {
    hide Inv, Snapshot, OrdersFit, Reopens, RecordsOf, RecordIds, ReplayPaths;
    var rs := Snapshot(st, o).paths;
    NewCacheInv();
    SnapshotPaths(st, o);
    ReplayPathsKeeps(NewCache(), fs, rs);
    ReplayPathsMounts(NewCache(), fs, rs, st.mounts);
    var r := ReplayPaths(NewCache(), fs, rs);
    assert r.mounts.Keys == st.mounts.Keys;
  }

  /** Of the saved queries those come back whose mounts did. */
  lemma QueryStage(st: CacheState, o: Orders, s1: CacheState)
    requires OrdersFit(o, st) && Inv(s1) && s1.queries == map[]
    ensures var s2 := ReplayQueries(s1, Snapshot(st, o).queries);
            && s2.mounts == s1.mounts && s2.next == s1.next && Inv(s2)
            && (forall q :: q in s2.queries <==> q in st.queries && st.queries[q] in s1.mounts)
            && (forall q :: q in s2.queries ==> s2.queries[q] == st.queries[q])
  {
    hide Inv, Snapshot, OrdersFit, ReplayQueries;
    var rs := Snapshot(st, o).queries;
    SnapshotQueries(st, o);
    ReplayQueriesResult(s1, rs, st.queries);
    var s2 := ReplayQueries(s1, rs);
    forall q | q in st.queries && st.queries[q] in s1.mounts ensures q in s2.queries {
      var i :| 0 <= i < |rs| && rs[i].query == q;
      assert rs[i].id == st.queries[q];
    }
  }

  lemma QueriesAlive(st: CacheState)
    requires Inv(st)
    ensures forall q :: q in st.queries ==> st.queries[q] in st.mounts
  {}

  lemma ClientsAlive(st: CacheState)
    requires Inv(st)
    ensures forall c, id :: id in st.mounts ==> (c in st.mounts[id].clients <==> id in ClientSet(st.clientMounts, c))
    ensures forall c, id :: c in st.clientMounts && id in st.clientMounts[c] ==> id in st.mounts
  {}

  lemma SameEntries(a: MountMap, b: MountMap)
    requires SameMounts(Stripped(a), b)
    requires forall id, c :: id in a ==> (c in b[id].clients <==> c in a[id].clients)
    ensures a == b
  {
    assert Stripped(a).Keys == a.Keys;
    forall id | id in a ensures a[id] == b[id] {
      assert Stripped(a)[id].path == a[id].path && Stripped(a)[id].handle == a[id].handle;
      assert b[id].clients == a[id].clients;
    }
  }

  /** Each mount that came back has the clients it had. */
  lemma ClientStage(st: CacheState, o: Orders, s2: CacheState)
    requires Inv(st) && OrdersFit(o, st) && Inv(s2)
    requires forall id :: id in s2.mounts ==> id in st.mounts && s2.mounts[id].clients == {}
    ensures var r := ReplayClients(s2, Snapshot(st, o).clients);
            && SameMounts(s2.mounts, r.mounts) && r.queries == s2.queries && r.next == s2.next && Inv(r)
            && forall id, c :: id in s2.mounts ==> (c in r.mounts[id].clients <==> c in st.mounts[id].clients)
  {
    hide Inv, Snapshot, OrdersFit, ReplayClients, Listed, ClientSet;
    var rs := Snapshot(st, o).clients;
    SnapshotClients(st, o);
    ClientsAlive(st);
    ReplayClientsResult(s2, rs);
    var r := ReplayClients(s2, rs);
    forall id, c | id in s2.mounts ensures c in r.mounts[id].clients <==> c in st.mounts[id].clients {
      assert c in r.mounts[id].clients <==> Listed(rs, c, id);
    }
  }

  /** Saving and restoring into a new cache, in whatever order the maps were
      walked, brings back the mounts with their ids, paths, handles and clients,
      the queries, and the clients' mounts. The path index has the same paths, each
      for some mount with that path, and is the same where paths are distinct. */
  lemma SaveRestore(st: CacheState, o: Orders, fs: FileSystem)
    requires Inv(st) && OrdersFit(o, st) && ImageFits(st, o) && Reopens(fs, st.mounts)
    ensures var r := Restart(st, o, fs);
            && Inv(r)
            && r.mounts == st.mounts && r.queries == st.queries && r.clientMounts == st.clientMounts
            && r.windows.Keys == st.windows.Keys
            && (forall w :: w in r.windows ==> r.windows[w] in st.mounts && st.mounts[r.windows[w]].path == w)
            && (PathsDistinct(st.mounts) ==> r.windows == st.windows)
  {
    hide Snapshot, OrdersFit, ReplayPaths, ReplayQueries, ReplayClients, Inv, PathsDistinct;
    RestartMounts(st, o, fs);
    var r := Restart(st, o, fs);
    hide Restart;
    InvParts(st);
    InvParts(r);
    hide ClientsIndexed, WindowsIndexed;
    ClientMountsDetermined(st, r);
    WindowsDetermined(st, r);
    WindowsMeaning(r);
  }

  lemma InvParts(st: CacheState)
    requires Inv(st)
    ensures WindowsIndexed(st.mounts, st.windows) && ClientsIndexed(st.mounts, st.clientMounts)
  {}

  lemma RestartMounts(st: CacheState, o: Orders, fs: FileSystem)
    requires Inv(st) && OrdersFit(o, st) && ImageFits(st, o) && Reopens(fs, st.mounts)
    ensures var r := Restart(st, o, fs);
            Inv(r) && r.mounts == st.mounts && r.queries == st.queries
  {
    hide Snapshot, OrdersFit, ReplayPaths, ReplayQueries, ReplayClients, Inv, Reopens, Restored;
    var i := Snapshot(st, o);
    RestoredIsReplay(NewCache(), fs, i);
    PathStage(st, o, fs);
    var s1 := ReplayPaths(NewCache(), fs, i.paths);
    assert s1.mounts.Keys == st.mounts.Keys;
    QueryStage(st, o, s1);
    var s2 := ReplayQueries(s1, i.queries);
    QueriesAlive(st);
    assert s2.queries == st.queries;
    ClientStage(st, o, s2);
    SameEntries(st.mounts, ReplayClients(s2, i.clients).mounts);
  }

  lemma WindowsMeaning(r: CacheState)
    requires WindowsIndexed(r.mounts, r.windows)
    ensures forall w :: w in r.windows ==> r.windows[w] in r.mounts && r.mounts[r.windows[w]].path == w
  {}

  lemma {:induction false} QueriesFrame(st: CacheState, rs: seq<QueryRecord>)
    ensures ReplayQueries(st, rs).mounts == st.mounts && ReplayQueries(st, rs).next == st.next
    decreases rs
  {
    if rs == [] {
    } else {
      QueriesFrame(RestoreQuery(st, rs[0]), rs[1..]);
    }
  }

  lemma {:induction false} IdsFrame(st: CacheState, client: OctetString, ids: seq<u64>)
    ensures var r := ReplayIds(st, client, ids);
            SameMounts(st.mounts, r.mounts) && r.next == st.next
    decreases ids
  {
    if ids == [] {
    } else {
      var first := RestoreSender(st, client, ids[0]);
      assert SameMounts(st.mounts, first.mounts) && first.next == st.next;
      hide RestoreSender;
      IdsFrame(first, client, ids[1..]);
    }
  }

  lemma {:induction false} ClientsFrame(st: CacheState, rs: seq<ClientRecord>)
    ensures var r := ReplayClients(st, rs);
            SameMounts(st.mounts, r.mounts) && r.next == st.next
    decreases rs
  {
    if rs == [] {
    } else {
      IdsFrame(st, rs[0].client, rs[0].ids);
      ClientsFrame(ReplayIds(st, rs[0].client, rs[0].ids), rs[1..]);
    }
  }

  /** The mounts and the next id of a restored cache come from its path records. */
  lemma RestartFrame(st: CacheState, o: Orders, fs: FileSystem)
    requires OrdersFit(o, st) && ImageFits(st, o)
    ensures var s1 := ReplayPaths(NewCache(), fs, Snapshot(st, o).paths);
            SameMounts(s1.mounts, Restart(st, o, fs).mounts) && Restart(st, o, fs).next == s1.next
  {
    hide Snapshot, OrdersFit, ReplayPaths, ReplayQueries, ReplayClients, Restored;
    var i := Snapshot(st, o);
    RestoredIsReplay(NewCache(), fs, i);
    var s1 := ReplayPaths(NewCache(), fs, i.paths);
    QueriesFrame(s1, i.queries);
    ClientsFrame(ReplayQueries(s1, i.queries), i.clients);
  }

  /** `next` is one above the greatest of the ids, or the first id of all if there
      is none. */
  ghost predicate OneAbove(next: u64, ids: set<u64>)
  {
    && FIRST_MOUNT <= next
    && (forall id :: id in ids ==> id < next)
    && (next == FIRST_MOUNT || next - 1 in ids)
  }

  /** Whether or not the saved paths open again, the restored cache goes on exactly
      one above the greatest saved id; so ids that only failed mounts had taken come
      again. */
  lemma RestartNext(st: CacheState, o: Orders, fs: FileSystem)
    requires OrdersFit(o, st) && ImageFits(st, o)
    ensures OneAbove(Restart(st, o, fs).next, st.mounts.Keys - {TOP_ID})
  {
    hide Restart, Snapshot, OrdersFit, ReplayPaths, ImageFits;
    RestartFrame(st, o, fs);
    SnapshotPaths(st, o);
    var rs := Snapshot(st, o).paths;
    ReplayPathsNext(NewCache(), fs, rs);
    var next := Restart(st, o, fs).next;
    forall id | id in st.mounts.Keys - {TOP_ID} ensures id < next {
      assert id in RecordIds(rs);
    }
  }

  /** Below the first id of all, or not above the id of a mount. */
  ghost predicate CoveredId(id: u64, mounts: MountMap)
  {
    id < FIRST_MOUNT || exists m :: m in mounts && m != TOP_ID && id <= m
  }

  /** Ids given out at any time before stay below the next one over a restart exactly
      when each is below the first id of all or not above a saved mount's: forgotten
      are the ids above every mount that is still there. */
  lemma UsedIdsStayBelowIff(st: CacheState, o: Orders, fs: FileSystem, used: set<u64>)
    requires OrdersFit(o, st) && ImageFits(st, o)
    ensures (forall id :: id in used ==> id < Restart(st, o, fs).next) <==>
            (forall id :: id in used ==> CoveredId(id, st.mounts))
  {
    hide Restart, OrdersFit, ImageFits;
    RestartNext(st, o, fs);
    var next := Restart(st, o, fs).next;
    forall id: u64 ensures id < next <==> CoveredId(id, st.mounts) {
      if FIRST_MOUNT <= id < next {
        assert next - 1 in st.mounts && next - 1 != TOP_ID && id <= next - 1;
      }
      if m :| m in st.mounts && m != TOP_ID && id <= m {
        assert m in st.mounts.Keys - {TOP_ID};
      }
    }
  }

  // ----- restoring any bytes -----

  lemma {:induction false} RestoreQueriesFrame(st: CacheState, v: BinaryReader.View, offset: u32, n: nat)
    ensures var r := RestoreQueries(st, v, offset, n).0;
            r.mounts == st.mounts && r.next == st.next
    decreases n
  {
    hide QueryAt;
    if n == 0 {
    } else {
      var (r, next) := QueryAt(v, offset);
      RestoreQueriesFrame(RestoreQuery(st, r), v, next, n - 1);
    }
  }

  lemma {:induction false} RestoreIdsFrame(
    st: CacheState, client: OctetString, v: BinaryReader.View, offset: u32, n: nat)
    ensures var r := RestoreIds(st, client, v, offset, n).0;
            SameMounts(st.mounts, r.mounts) && r.next == st.next
    decreases n
  {
    if n == 0 {
    } else {
      var first := RestoreSender(st, client, v.Get64(offset));
      assert SameMounts(st.mounts, first.mounts) && first.next == st.next;
      hide RestoreSender;
      RestoreIdsFrame(first, client, v, Add32(offset, 8), n - 1);
    }
  }

  lemma {:induction false} RestoreClientsFrame(st: CacheState, v: BinaryReader.View, offset: u32, n: nat)
    ensures var r := RestoreClients(st, v, offset, n).0;
            SameMounts(st.mounts, r.mounts) && r.next == st.next
    decreases n
  {
    hide RestoreIds;
    if n == 0 {
    } else {
      var size := v.Get32(offset);
      var behind := Add32(Add32(offset, 4), size);
      RestoreIdsFrame(st, v.Slice(Add32(offset, 4), size), v, Add32(behind, 4), v.Get32(behind));
      var (after, next) := RestoreClient(st, v, offset);
      hide RestoreClient;
      RestoreClientsFrame(after, v, next, n - 1);
    }
  }

  /** The mounts and the next id come from the path records alone. */
  lemma RestoredFrame(st: CacheState, fs: FileSystem, binary: seq<byte>)
    ensures var v := BinaryReader.Whole(binary);
            var s1 := RestorePaths(st, fs, v, Add32(0, 4), v.Get32(0)).0;
            SameMounts(s1.mounts, Restored(st, fs, binary).mounts) && Restored(st, fs, binary).next == s1.next
  {
    hide RestorePaths, RestoreQueries, RestoreClients;
    var v := BinaryReader.Whole(binary);
    var (s1, o1) := RestorePaths(st, fs, v, Add32(0, 4), v.Get32(0));
    RestoreQueriesFrame(s1, v, Add32(o1, 4), v.Get32(o1));
    var (s2, o2) := RestoreQueries(s1, v, Add32(o1, 4), v.Get32(o1));
    RestoreClientsFrame(s2, v, Add32(o2, 4), v.Get32(o2));
  }

  lemma {:induction false} RestorePathsGrows(st: CacheState, fs: FileSystem, v: BinaryReader.View, offset: u32, n: nat)
    ensures Grows(st, RestorePaths(st, fs, v, offset, n).0)
    decreases n
  {
    hide PathAt;
    if n == 0 {
    } else {
      var (r, next) := PathAt(v, offset);
      RestorePathsGrows(RestorePath(st, fs, r), fs, v, next, n - 1);
    }
  }

  /** Restoring any bytes loses and changes no mount. */
  lemma RestoredGrows(st: CacheState, fs: FileSystem, binary: seq<byte>)
    ensures Grows(st, Restored(st, fs, binary))
  {
    hide RestorePaths, Restored;
    var v := BinaryReader.Whole(binary);
    RestorePathsGrows(st, fs, v, Add32(0, 4), v.Get32(0));
    RestoredFrame(st, fs, binary);
  }

  /** A path record with the last of all ids, whose path opens. */
  predicate TopIdOpens(fs: FileSystem, v: BinaryReader.View, offset: u32, n: nat)
    decreases n
  {
    n > 0
    && var (r, next) := PathAt(v, offset);
       (r.id == TOP_ID && fs(r.path).Some?) || TopIdOpens(fs, v, next, n - 1)
  }

  lemma RestorePathIds(st: CacheState, fs: FileSystem, r: PathRecord)
    requires IdsBelowNext(st)
    ensures IdsBelowNext(RestorePath(st, fs, r)) <==> !(r.id == TOP_ID && fs(r.path).Some?)
  {
    var after := RestorePath(st, fs, r);
    assert r.id != TOP_ID ==> r.id < after.next;
    if r.id == TOP_ID && fs(r.path).Some? {
      assert TOP_ID in after.mounts;
    }
  }

  lemma {:induction false} RestorePathsIds(st: CacheState, fs: FileSystem, v: BinaryReader.View, offset: u32, n: nat)
    requires IdsBelowNext(st)
    ensures IdsBelowNext(RestorePaths(st, fs, v, offset, n).0) <==> !TopIdOpens(fs, v, offset, n)
    decreases n
  {
    hide PathAt, RestorePath;
    if n == 0 {
    } else {
      var (r, next) := PathAt(v, offset);
      RestorePathIds(st, fs, r);
      if IdsBelowNext(RestorePath(st, fs, r)) {
        RestorePathsIds(RestorePath(st, fs, r), fs, v, next, n - 1);
      } else {
        TopIdFiled(st, fs, r);
        RestorePathsGrows(RestorePath(st, fs, r), fs, v, next, n - 1);
        assert TOP_ID in RestorePaths(RestorePath(st, fs, r), fs, v, next, n - 1).0.mounts;
      }
    }
  }

  lemma TopIdFiled(st: CacheState, fs: FileSystem, r: PathRecord)
    requires r.id == TOP_ID && fs(r.path).Some?
    ensures TOP_ID in RestorePath(st, fs, r).mounts
  {}

  /** Restoring bytes keeps all ids below the next one exactly when no path record
      with the last of all ids opens: its successor wraps around to zero. */
  lemma RestoredIdsIff(st: CacheState, fs: FileSystem, binary: seq<byte>)
    requires IdsBelowNext(st)
    ensures var v := BinaryReader.Whole(binary);
            IdsBelowNext(Restored(st, fs, binary)) <==> !TopIdOpens(fs, v, Add32(0, 4), v.Get32(0))
  {
    var v := BinaryReader.Whole(binary);
    RestorePathsIds(st, fs, v, Add32(0, 4), v.Get32(0));
    RestoredFrame(st, fs, binary);
    hide RestorePaths, Restored, TopIdOpens;
  }

  // ----- paths that do not open again -----

  /** Every mount that replaying adds is what the path of its record opens to. */
  lemma {:induction false} ReplayPathsSource(st: CacheState, fs: FileSystem, rs: seq<PathRecord>, id: u64)
    requires id in ReplayPaths(st, fs, rs).mounts && id !in st.mounts
    ensures exists i :: 0 <= i < |rs| && rs[i].id == id && fs(rs[i].path).Some?
                        && Names(ReplayPaths(st, fs, rs).mounts[id], id, fs(rs[i].path).value)
    decreases rs
  {
    var first := RestorePath(st, fs, rs[0]);
    PathIsFiled(st, fs, rs[0].id, rs[0].path);
    hide Names;
    if id in first.mounts {
      assert rs[0].id == id && Names(first.mounts[id], id, fs(rs[0].path).value);
      hide NewEntry, RestorePath;
      ReplayPathsStays(first, fs, rs[1..], id);
    } else {
      hide NewEntry, RestorePath;
      ReplayPathsSource(first, fs, rs[1..], id);
      var i :| 0 <= i < |rs| - 1 && rs[1..][i].id == id && fs(rs[1..][i].path).Some?
               && Names(ReplayPaths(first, fs, rs[1..]).mounts[id], id, fs(rs[1..][i].path).value);
      assert rs[i + 1] == rs[1..][i];
    }
  }

  lemma {:induction false} ReplayPathsStays(st: CacheState, fs: FileSystem, rs: seq<PathRecord>, id: u64)
    requires id in st.mounts
    ensures id in ReplayPaths(st, fs, rs).mounts && ReplayPaths(st, fs, rs).mounts[id] == st.mounts[id]
    decreases rs
  {
    if rs == [] {
    } else {
      ReplayPathsStays(RestorePath(st, fs, rs[0]), fs, rs[1..], id);
    }
  }

  lemma {:induction false} RestorePathsFiles(
    st: CacheState, fs: FileSystem, v: BinaryReader.View, offset: u32, n: nat, id: u64)
    requires id in RestorePaths(st, fs, v, offset, n).0.mounts && id !in st.mounts
    ensures exists path :: fs(path).Some? && Names(RestorePaths(st, fs, v, offset, n).0.mounts[id], id, fs(path).value)
    decreases n
  {
    hide PathAt, Names;
    var (r, next) := PathAt(v, offset);
    var first := RestorePath(st, fs, r);
    PathIsFiled(st, fs, r.id, r.path);
    if id in first.mounts {
      assert Names(first.mounts[id], id, fs(r.path).value);
      hide RestorePath;
      RestorePathsGrows(first, fs, v, next, n - 1);
      SameNames(first.mounts[id], RestorePaths(first, fs, v, next, n - 1).0.mounts[id], id, fs(r.path).value);
    } else {
      hide RestorePath;
      RestorePathsFiles(first, fs, v, next, n - 1, id);
    }
  }

  lemma SameNames(a: Entry, b: Entry, id: u64, o: Opened)
    requires Names(a, id, o) && a.path == b.path && a.handle == b.handle
    ensures Names(b, id, o)
  {}

  /** Whatever bytes are restored, every mount they add is what some path opens to:
      it has that object's final path, and its handle says the mount, the volume and
      the file. */
  lemma RestoredNames(st: CacheState, fs: FileSystem, binary: seq<byte>, id: u64)
    requires id in Restored(st, fs, binary).mounts && id !in st.mounts
    ensures exists path :: fs(path).Some? && Names(Restored(st, fs, binary).mounts[id], id, fs(path).value)
  {
    hide RestorePaths, Restored, Names;
    var v := BinaryReader.Whole(binary);
    RestoredFrame(st, fs, binary);
    RestorePathsFiles(st, fs, v, Add32(0, 4), v.Get32(0), id);
    var s1 := RestorePaths(st, fs, v, Add32(0, 4), v.Get32(0)).0;
    var path :| fs(path).Some? && Names(s1.mounts[id], id, fs(path).value);
    SameNames(s1.mounts[id], Restored(st, fs, binary).mounts[id], id, fs(path).value);
  }

  /** Whatever opens, a restored mount is what its saved path opens to. */
  lemma RestartSource(st: CacheState, o: Orders, fs: FileSystem, id: u64)
    requires OrdersFit(o, st) && ImageFits(st, o)
    ensures var mounts := Restart(st, o, fs).mounts;
            id in mounts ==>
              id in st.mounts && fs(st.mounts[id].path).Some? && Names(mounts[id], id, fs(st.mounts[id].path).value)
  {
    hide Restart, Snapshot, OrdersFit, ReplayPaths, ImageFits, NewEntry;
    RestartFrame(st, o, fs);
    SnapshotPaths(st, o);
    if id in Restart(st, o, fs).mounts {
      ReplayPathsSource(NewCache(), fs, Snapshot(st, o).paths, id);
    }
  }

  /** A restart keeps every mount, with its path and handle, exactly when every
      saved path opens to itself. */
  lemma RestartKeepsIff(st: CacheState, o: Orders, fs: FileSystem)
    requires Inv(st) && OrdersFit(o, st) && ImageFits(st, o)
    ensures Grows(st, Restart(st, o, fs)) <==> Reopens(fs, st.mounts)
  {
    hide Restart, OrdersFit, ImageFits, Inv;
    if Reopens(fs, st.mounts) {
      RestartMounts(st, o, fs);
    }
    if Grows(st, Restart(st, o, fs)) {
      forall id | id in st.mounts ensures ReopensOne(fs, st.mounts, id) {
        RestartSource(st, o, fs, id);
      }
    }
  }

  lemma {:induction false} ReplayPathsFiles(st: CacheState, fs: FileSystem, rs: seq<PathRecord>, i: nat)
    requires i < |rs| && fs(rs[i].path).Some?
    ensures rs[i].id in ReplayPaths(st, fs, rs).mounts
    decreases rs
  {
    var first := RestorePath(st, fs, rs[0]);
    if i == 0 {
      assert rs[0].id in first.mounts;
      ReplayPathsStays(first, fs, rs[1..], rs[0].id);
    } else {
      assert rs[i] == rs[1..][i - 1];
      ReplayPathsFiles(first, fs, rs[1..], i - 1);
    }
  }

  /** A restart keeps the ids of exactly the mounts whose paths open. */
  lemma RestartIds(st: CacheState, o: Orders, fs: FileSystem, id: u64)
    requires OrdersFit(o, st) && ImageFits(st, o)
    ensures id in Restart(st, o, fs).mounts <==> id in st.mounts && fs(st.mounts[id].path).Some?
  {
    hide Restart, Snapshot, OrdersFit, ReplayPaths, ImageFits, NewEntry;
    RestartSource(st, o, fs, id);
    if id in st.mounts && fs(st.mounts[id].path).Some? {
      RestartFrame(st, o, fs);
      SnapshotPaths(st, o);
      var rs := Snapshot(st, o).paths;
      assert id in RecordIds(rs);
      var i :| 0 <= i < |rs| && rs[i].id == id;
      ReplayPathsFiles(NewCache(), fs, rs, i);
    }
  }

  lemma {:induction false} ReplayPathsClientless(st: CacheState, fs: FileSystem, rs: seq<PathRecord>)
    requires forall id :: id in st.mounts ==> st.mounts[id].clients == {}
    ensures forall id :: id in ReplayPaths(st, fs, rs).mounts ==> ReplayPaths(st, fs, rs).mounts[id].clients == {}
    decreases rs
  {
    if rs == [] {
    } else {
      PathIsFiled(st, fs, rs[0].id, rs[0].path);
      ReplayPathsClientless(RestorePath(st, fs, rs[0]), fs, rs[1..]);
    }
  }

  /** What a restart makes of a cache, whatever opens: the mounts whose paths open, as
      what they open to, each with the clients it had; the queries that led to one of
      them; and the index and the clients' mounts that belong to those. */
  lemma RestartMeaning(st: CacheState, o: Orders, fs: FileSystem)
    requires Inv(st) && OrdersFit(o, st) && ImageFits(st, o)
    ensures var r := Restart(st, o, fs);
            && Inv(r)
            && (forall id :: id in r.mounts <==> id in st.mounts && fs(st.mounts[id].path).Some?)
            && (forall id :: id in r.mounts ==>
                  && Names(r.mounts[id], id, fs(st.mounts[id].path).value)
                  && r.mounts[id].clients == st.mounts[id].clients)
            && (forall q :: q in r.queries <==> q in st.queries && st.queries[q] in r.mounts)
            && (forall q :: q in r.queries ==> r.queries[q] == st.queries[q])
  {
    hide Restart, Snapshot, OrdersFit, ReplayPaths, ReplayQueries, ReplayClients, ImageFits, Inv, Names;
    var r := Restart(st, o, fs);
    RestartInv(st, o, fs);
    forall id ensures id in r.mounts <==> id in st.mounts && fs(st.mounts[id].path).Some? {
      RestartIds(st, o, fs, id);
    }
    forall id | id in r.mounts ensures Names(r.mounts[id], id, fs(st.mounts[id].path).value) {
      RestartSource(st, o, fs, id);
    }
    RestartStages(st, o, fs);
  }

  lemma RestartStages(st: CacheState, o: Orders, fs: FileSystem)
    requires Inv(st) && OrdersFit(o, st) && ImageFits(st, o)
    ensures var r := Restart(st, o, fs);
            && (forall id :: id in r.mounts ==> id in st.mounts && r.mounts[id].clients == st.mounts[id].clients)
            && (forall q :: q in r.queries <==> q in st.queries && st.queries[q] in r.mounts)
            && (forall q :: q in r.queries ==> r.queries[q] == st.queries[q])
  {
    hide Snapshot, OrdersFit, ReplayPaths, ReplayQueries, ReplayClients, Inv, Restored;
    var i := Snapshot(st, o);
    NewCacheInv();
    RestartFrame(st, o, fs);
    RestoredIsReplay(NewCache(), fs, i);
    ReplayPathsKeeps(NewCache(), fs, i.paths);
    ReplayPathsClientless(NewCache(), fs, i.paths);
    var s1 := ReplayPaths(NewCache(), fs, i.paths);
    QueryStage(st, o, s1);
    var r := Restart(st, o, fs);
    hide Restart, ImageFits;
    forall id | id in s1.mounts ensures id in st.mounts {
      RestartIds(st, o, fs, id);
    }
    ClientStage(st, o, ReplayQueries(s1, i.queries));
    forall id | id in r.mounts ensures r.mounts[id].clients == st.mounts[id].clients {
      assert forall c :: c in r.mounts[id].clients <==> c in st.mounts[id].clients;
    }
  }

  ghost predicate IsTop(top: u64, mounts: MountMap)
  {
    top in mounts && forall id :: id in mounts ==> id <= top
  }

  /** After a restart and another one, every id saved at the first is still below
      the next one exactly when, at the first, the path of the greatest id opened
      (leaving aside the id that has no successor, and zero, which is never given
      out). Otherwise the greatest id is forgotten, and comes again. */
  lemma SecondRestartIff(st: CacheState, o: Orders, fs: FileSystem, o': Orders, fs': FileSystem, top: u64)
    requires OrdersFit(o, st) && ImageFits(st, o) && IsTop(top, st.mounts)
    requires var once := Restart(st, o, fs); OrdersFit(o', once) && ImageFits(once, o')
    ensures (forall id :: id in st.mounts ==> id < Restart(Restart(st, o, fs), o', fs').next) <==>
            top < FIRST_MOUNT || (top != TOP_ID && fs(st.mounts[top].path).Some?)
  {
    hide Restart, OrdersFit, ImageFits;
    var once := Restart(st, o, fs);
    RestartIds(st, o, fs, top);
    forall id | id in once.mounts ensures id in st.mounts && id <= top {
      RestartIds(st, o, fs, id);
    }
    UsedIdsStayBelowIff(once, o', fs', st.mounts.Keys);
    if top in once.mounts && top != TOP_ID {
      assert forall id :: id in st.mounts ==> id <= top;
    }
    if m :| FIRST_MOUNT <= top && m in once.mounts && m != TOP_ID && top <= m {
      assert m == top;
    }
  }

  /** The smallest case: of mounts 1 and 2 the second does not open; after another
      restart, 2 is the next id. */
  lemma SecondIdComesAgain(st: CacheState, o: Orders, fs: FileSystem, o': Orders, fs': FileSystem)
    requires OrdersFit(o, st) && ImageFits(st, o)
    requires var once := Restart(st, o, fs); OrdersFit(o', once) && ImageFits(once, o')
    ensures st.mounts.Keys == {1, 2} && fs(st.mounts[1].path).Some? && fs(st.mounts[2].path).None? ==>
              Restart(Restart(st, o, fs), o', fs').next == 2
  {
    hide Restart, OrdersFit, ImageFits;
    var once := Restart(st, o, fs);
    RestartIds(st, o, fs, 1);
    RestartIds(st, o, fs, 2);
    if st.mounts.Keys == {1, 2} && fs(st.mounts[1].path).Some? && fs(st.mounts[2].path).None? {
      forall id | id in once.mounts ensures id == 1 {
        RestartIds(st, o, fs, id);
        assert id in st.mounts.Keys;
      }
      RestartNext(once, o', fs');
      assert 1 in once.mounts.Keys - {TOP_ID};
    }
  }

  /** When no saved path opens, a second restart has forgotten everything: the cache
      is as new. */
  lemma ForgottenIds(st: CacheState, o: Orders, fs: FileSystem, o': Orders, fs': FileSystem)
    requires Inv(st) && OrdersFit(o, st) && ImageFits(st, o)
    requires forall id :: id in st.mounts ==> fs(st.mounts[id].path).None?
    requires OrdersFit(o', Restart(st, o, fs))
    ensures Restart(Restart(st, o, fs), o', fs') == NewCache()
  {
    hide Restart, OrdersFit, ImageFits, Inv;
    var once := Restart(st, o, fs);
    assert once.mounts == map[] by {
      forall id | id in once.mounts ensures false {
        RestartSource(st, o, fs, id);
      }
    }
    RestartInv(st, o, fs);
    EmptyRestart(once, o', fs');
  }

  lemma RestartInv(st: CacheState, o: Orders, fs: FileSystem)
    requires OrdersFit(o, st)
    ensures Inv(Restart(st, o, fs))
  {
    hide Inv, OrdersFit, Restored;
    NewCacheInv();
    RestoredInv(NewCache(), fs, EncImage(Snapshot(st, o)));
  }

  lemma EmptyRestart(st: CacheState, o: Orders, fs: FileSystem)
    requires Inv(st) && OrdersFit(o, st) && st.mounts == map[]
    ensures Restart(st, o, fs) == NewCache()
  {
    EmptySnapshot(st, o);
    hide Inv, OrdersFit, Snapshot, Restored;
    assert |EncImage(Snapshot(st, o))| < TWO_32;
    RestoredIsReplay(NewCache(), fs, Snapshot(st, o));
  }

  lemma EmptySnapshot(st: CacheState, o: Orders)
    requires Inv(st) && OrdersFit(o, st) && st.mounts == map[]
    ensures Snapshot(st, o) == Image([], [], [])
  {}
}
