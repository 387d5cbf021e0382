/** The mount cache: mounts by id, with indexes by Windows path, by queried path
    and by client. Nothing is ever taken out.

    The program stores iterators into the mount table. They keep naming their mount
    as long as the table's nodes stay where they are, as they do in the library the
    program is built with; here they are mount ids. Every operation runs under one lock, so it is one
    step. */
module MountCache {
  import opened Wrappers
  import opened Bytes
  import opened FileHandle

  /** What opening a path yields: the final path name and the identity. */
  datatype Opened = Opened(fullpath: WString, id: VolumeFileId)

  /** The file system as one operation sees it: the paths that open. */
  type FileSystem = WString -> Option<Opened>

  datatype Entry = Entry(path: WString, handle: seq<byte>, clients: set<OctetString>)

  datatype CacheState = CacheState(
    next: u64,
    mounts: MountMap,
    windows: WindowsMap,
    queries: QueryMap,
    clientMounts: ClientMounts)

  const FIRST_MOUNT: u64 := 1

  function NewCache(): CacheState
  {
    CacheState(FIRST_MOUNT, map[], map[], map[], map[])
  }

  // ----- the operations on values -----

  type MountMap = map<u64, Entry>
  type WindowsMap = map<WString, u64>
  type QueryMap = map<OctetString, u64>
  type ClientMounts = map<OctetString, set<u64>>

  function ClientSet(clientMounts: ClientMounts, client: OctetString): set<u64>
  {
    if client in clientMounts then clientMounts[client] else {}
  }

  function MountSender(st: CacheState, client: OctetString, id: u64): CacheState
    requires id in st.mounts
  {
    var entry := st.mounts[id];
    if client in entry.clients then st
    else st.(mounts := st.mounts[id := entry.(clients := entry.clients + {client})],
             clientMounts := st.clientMounts[client := ClientSet(st.clientMounts, client) + {id}])
  }

  function MountSenderQuery(st: CacheState, client: OctetString, id: u64, query: OctetString): CacheState
    requires id in st.mounts
  {
    MountSender(st.(queries := st.queries[query := id]), client, id)
  }

  function NewEntry(id: u64, o: Opened): Entry
  {
    Entry(o.fullpath, CreateInBinary(MountFilehandle(id, o.id)), {})
  }

  /** Opens the path and files it under the id; fails when it does not open or the
      id is taken. An index entry for the path that is there already stays. */
  function MountWindowsPath(st: CacheState, fs: FileSystem, id: u64, path: WString): (r: (CacheState, Option<u64>))
    ensures r.1.Some? ==> r.1.value == id && id in r.0.mounts
  {
    match fs(path)
    case None => (st, None)
    case Some(o) =>
      if id in st.mounts then (st, None)
      else
        (st.(mounts := st.mounts[id := NewEntry(id, o)],
             windows := if o.fullpath in st.windows then st.windows else st.windows[o.fullpath := id]),
         Some(id))
  }

  /** A new mount takes the next id, whether or not it succeeds. */
  function SafeMount(st: CacheState, fs: FileSystem, client: OctetString, query: OctetString, path: WString):
    (r: (CacheState, Option<u64>))
    ensures r.1.Some? ==> r.1.value in r.0.mounts
  {
    var (filed, id) := MountWindowsPath(st.(next := (st.next + 1) % TWO_64), fs, st.next, path);
    match id
    case None => (filed, None)
    case Some(m) => (MountSenderQuery(filed, client, m, query), Some(m))
  }

  // ----- the class -----

  class MountCache {
    var nextMount: u64
    var mountMap: MountMap
    var windowsMap: WindowsMap
    var queryMap: QueryMap
    var clientMounts: ClientMounts

    constructor ()
      ensures State() == NewCache()
    {
      nextMount := FIRST_MOUNT;
      mountMap, windowsMap, queryMap, clientMounts := map[], map[], map[], map[];
    }

    ghost function State(): CacheState
      reads this
    {
      CacheState(nextMount, mountMap, windowsMap, queryMap, clientMounts)
    }

    method FindQuery(query: OctetString) returns (id: Option<u64>)
      ensures id == if query in queryMap then Some(queryMap[query]) else None
    {
      if query in queryMap {
        return Some(queryMap[query]);
      }
      return None;
    }

    method FindWindows(path: WString) returns (id: Option<u64>)
      ensures id == if path in windowsMap then Some(windowsMap[path]) else None
    {
      if path in windowsMap {
        return Some(windowsMap[path]);
      }
      return None;
    }

    /** The stored handle of a mount, for the file procedures. */
    method Get(id: u64) returns (handle: Option<seq<byte>>)
      ensures handle == if id in mountMap then Some(mountMap[id].handle) else None
    {
      if id in mountMap {
        return Some(mountMap[id].handle);
      }
      return None;
    }

    method SafeMountSender(client: OctetString, id: u64)
      requires id in mountMap
      modifies this
      ensures State() == MountSender(old(State()), client, id)
    {
      var entry := mountMap[id];
      if client in entry.clients {
        return;
      }
      if client !in clientMounts {
        clientMounts := clientMounts[client := {}];
      }
      clientMounts := clientMounts[client := clientMounts[client] + {id}];
      mountMap := mountMap[id := entry.(clients := entry.clients + {client})];
    }

    method SafeMountSenderQuery(client: OctetString, id: u64, query: OctetString)
      requires id in mountMap
      modifies this
      ensures State() == MountSenderQuery(old(State()), client, id, query)
    {
      queryMap := queryMap[query := id];
      SafeMountSender(client, id);
    }

    method SafeMountWindowsPath(fs: FileSystem, id: u64, path: WString) returns (r: Option<u64>)
      modifies this
      ensures (State(), r) == MountWindowsPath(old(State()), fs, id, path)
    {
      var directory := fs(path);
      if directory.None? {
        return None;
      }
      var entry := Entry(directory.value.fullpath, CreateInBinary(MountFilehandle(id, directory.value.id)), {});
      if id in mountMap {
        return None;
      }
      mountMap := mountMap[id := entry];
      if entry.path !in windowsMap {
        windowsMap := windowsMap[entry.path := id];
      }
      return Some(id);
    }

    method SafeMountNew(fs: FileSystem, client: OctetString, query: OctetString, path: WString) returns (r: Option<u64>)
      modifies this
      ensures (State(), r) == SafeMount(old(State()), fs, client, query, path)
    {
      var id := nextMount;
      nextMount := (nextMount + 1) % TWO_64;
      r := SafeMountWindowsPath(fs, id, path);
      if r.Some? {
        SafeMountSenderQuery(client, r.value, query);
      }
    }
  }

  // ----- what is filed -----

  /** The entry has the final path of what was opened, and a handle that says the
      mount, the volume and the file. */
  ghost predicate Names(entry: Entry, id: u64, o: Opened)
  {
    && entry.path == o.fullpath
    && |entry.handle| == SIZE
    && ViewBinary(entry.handle) == MountFilehandle(id, o.id)
  }

  lemma NewEntryNames(id: u64, o: Opened)
    ensures Names(NewEntry(id, o), id, o) && NewEntry(id, o).clients == {}
  {
    ViewOfCreate(MountFilehandle(id, o.id));
    hide CreateInBinary, ViewBinary;
  }

  /** Nothing else is in an entry but its clients. */
  lemma NamesOnce(a: Entry, b: Entry, id: u64, o: Opened)
    requires Names(a, id, o) && Names(b, id, o)
    ensures a.path == b.path && a.handle == b.handle
  {
    CreateOfView(a.handle);
    CreateOfView(b.handle);
    hide CreateInBinary, ViewBinary;
  }

  /** A path is filed exactly when it opens and the id is free. Then the mount has the
      opened object's final path and a handle on that very object, and no clients; its
      path is in the index, under the mount that was there before if one was; and
      nothing else changes. Otherwise nothing changes at all. */
  lemma PathIsFiled(st: CacheState, fs: FileSystem, id: u64, path: WString)
    ensures var (r, m) := MountWindowsPath(st, fs, id, path);
            && (m == if fs(path).Some? && id !in st.mounts then Some(id) else None)
            && (m.None? ==> r == st)
            && (m.Some? ==>
                  && id in r.mounts && Names(r.mounts[id], id, fs(path).value) && r.mounts[id].clients == {}
                  && r.mounts == st.mounts[id := r.mounts[id]]
                  && r.windows.Keys == st.windows.Keys + {fs(path).value.fullpath}
                  && (forall w :: w in r.windows ==> r.windows[w] == if w in st.windows then st.windows[w] else id)
                  && r.queries == st.queries && r.clientMounts == st.clientMounts && r.next == st.next)
  {
    if fs(path).Some? {
      NewEntryNames(id, fs(path).value);
    }
    hide NewEntry, Names;
  }

  /** Listing a client makes it a client of that mount, and of no other; paths,
      handles, queries and the path index stay. */
  lemma SenderIsListed(st: CacheState, client: OctetString, id: u64)
    requires id in st.mounts
    ensures var r := MountSender(st, client, id);
            && r.mounts.Keys == st.mounts.Keys
            && (forall m :: m in st.mounts ==>
                  && r.mounts[m].path == st.mounts[m].path && r.mounts[m].handle == st.mounts[m].handle
                  && forall c :: c in r.mounts[m].clients <==> c in st.mounts[m].clients || (c == client && m == id))
            && r.queries == st.queries && r.windows == st.windows && r.next == st.next
  {}

  // ----- the invariant -----

  /** Every stored handle carries its own mount's id. */
  ghost predicate HandlesOwn(mounts: MountMap)
  {
    forall id :: id in mounts ==> |mounts[id].handle| == SIZE && ViewBinary(mounts[id].handle).mountId == id
  }

  /** A path index entry names a mount with that path, and every mount's path is
      in the index. */
  ghost predicate WindowsIndexed(mounts: MountMap, windows: WindowsMap)
  {
    && (forall w :: w in windows ==> windows[w] in mounts && mounts[windows[w]].path == w)
    && (forall id :: id in mounts ==> mounts[id].path in windows)
  }

  ghost predicate QueriesIndexed(mounts: MountMap, queries: QueryMap)
  {
    forall q :: q in queries ==> queries[q] in mounts
  }

  /** A client is listed at a mount exactly when the mount is listed at the client,
      and a client is only listed with some mount. */
  ghost predicate ClientsIndexed(mounts: MountMap, clientMounts: ClientMounts)
  {
    && (forall c, id :: id in mounts ==> (c in mounts[id].clients <==> id in ClientSet(clientMounts, c)))
    && (forall c :: c in clientMounts ==> clientMounts[c] != {} && clientMounts[c] <= mounts.Keys)
  }

  ghost predicate Inv(st: CacheState)
  {
    && HandlesOwn(st.mounts)
    && WindowsIndexed(st.mounts, st.windows)
    && QueriesIndexed(st.mounts, st.queries)
    && ClientsIndexed(st.mounts, st.clientMounts)
  }

  /** Every id given out is below the next one. */
  ghost predicate IdsBelowNext(st: CacheState)
  {
    forall id :: id in st.mounts ==> id < st.next
  }

  lemma NewCacheInv()
    ensures Inv(NewCache()) && IdsBelowNext(NewCache())
  {}

  lemma SenderKeepsClients(mounts: MountMap, clientMounts: ClientMounts, client: OctetString, id: u64)
    requires id in mounts && ClientsIndexed(mounts, clientMounts)
    ensures ClientsIndexed(mounts[id := mounts[id].(clients := mounts[id].clients + {client})],
                           clientMounts[client := ClientSet(clientMounts, client) + {id}])
  {
    var mounts' := mounts[id := mounts[id].(clients := mounts[id].clients + {client})];
    var clientMounts' := clientMounts[client := ClientSet(clientMounts, client) + {id}];
    forall c, m | m in mounts' ensures c in mounts'[m].clients <==> m in ClientSet(clientMounts', c) {
      assert c in mounts[m].clients <==> m in ClientSet(clientMounts, c);
    }
    assert mounts'.Keys == mounts.Keys;
  }

  lemma SenderKeepsOthers(st: CacheState, client: OctetString, id: u64)
    requires id in st.mounts && HandlesOwn(st.mounts)
    requires WindowsIndexed(st.mounts, st.windows) && QueriesIndexed(st.mounts, st.queries)
    ensures var mounts := st.mounts[id := st.mounts[id].(clients := st.mounts[id].clients + {client})];
            HandlesOwn(mounts) && WindowsIndexed(mounts, st.windows) && QueriesIndexed(mounts, st.queries)
  {}

  lemma MountSenderInv(st: CacheState, client: OctetString, id: u64)
    requires Inv(st) && id in st.mounts
    ensures Inv(MountSender(st, client, id))
  {
    SenderKeepsClients(st.mounts, st.clientMounts, client, id);
    SenderKeepsOthers(st, client, id);
    hide HandlesOwn, WindowsIndexed, QueriesIndexed, ClientsIndexed;
  }

  lemma MountSenderQueryInv(st: CacheState, client: OctetString, id: u64, query: OctetString)
    requires Inv(st) && id in st.mounts
    ensures Inv(MountSenderQuery(st, client, id, query))
  {
    assert QueriesIndexed(st.mounts, st.queries[query := id]);
    hide HandlesOwn, WindowsIndexed, QueriesIndexed, ClientsIndexed, MountSender;
    MountSenderInv(st.(queries := st.queries[query := id]), client, id);
  }

  lemma NewMountKeepsClients(mounts: MountMap, clientMounts: ClientMounts, id: u64, entry: Entry)
    requires id !in mounts && entry.clients == {} && ClientsIndexed(mounts, clientMounts)
    ensures ClientsIndexed(mounts[id := entry], clientMounts)
  {
    var mounts' := mounts[id := entry];
    forall c, m | m in mounts' ensures c in mounts'[m].clients <==> m in ClientSet(clientMounts, c) {
      if m != id {
        assert c in mounts[m].clients <==> m in ClientSet(clientMounts, c);
      }
    }
    assert mounts.Keys <= mounts'.Keys;
  }

  lemma NewMountKeepsWindows(mounts: MountMap, windows: WindowsMap, id: u64, entry: Entry)
    requires id !in mounts && WindowsIndexed(mounts, windows)
    ensures WindowsIndexed(mounts[id := entry], if entry.path in windows then windows else windows[entry.path := id])
  {}

  lemma NewMountKeepsHandles(mounts: MountMap, id: u64, o: Opened)
    requires id !in mounts && HandlesOwn(mounts)
    ensures HandlesOwn(mounts[id := NewEntry(id, o)])
  {
    ViewOfCreate(MountFilehandle(id, o.id));
    hide CreateInBinary, ViewBinary;
  }

  lemma NewMountKeepsQueries(mounts: MountMap, queries: QueryMap, id: u64, entry: Entry)
    requires QueriesIndexed(mounts, queries)
    ensures QueriesIndexed(mounts[id := entry], queries)
  {}

  lemma MountWindowsPathInv(st: CacheState, fs: FileSystem, id: u64, path: WString)
    requires Inv(st)
    ensures Inv(MountWindowsPath(st, fs, id, path).0)
  {
    hide HandlesOwn, WindowsIndexed, QueriesIndexed, ClientsIndexed, CreateInBinary;
    if fs(path).Some? && id !in st.mounts {
      var o := fs(path).value;
      NewMountKeepsClients(st.mounts, st.clientMounts, id, NewEntry(id, o));
      NewMountKeepsWindows(st.mounts, st.windows, id, NewEntry(id, o));
      NewMountKeepsHandles(st.mounts, id, o);
      NewMountKeepsQueries(st.mounts, st.queries, id, NewEntry(id, o));
    }
  }

  lemma SafeMountInv(st: CacheState, fs: FileSystem, client: OctetString, query: OctetString, path: WString)
    requires Inv(st)
    ensures Inv(SafeMount(st, fs, client, query, path).0)
  {
    hide HandlesOwn, WindowsIndexed, QueriesIndexed, ClientsIndexed, MountWindowsPath, MountSenderQuery;
    var numbered := st.(next := (st.next + 1) % TWO_64);
    MountWindowsPathInv(numbered, fs, st.next, path);
    var (filed, id) := MountWindowsPath(numbered, fs, st.next, path);
    if id.Some? {
      MountSenderQueryInv(filed, client, id.value, query);
    }
  }

  /** While ids are below the next one, a mount succeeds exactly when its path
      opens, under an id that no mount had; short of the last id of all, ids stay
      below the next one. */
  lemma SafeMountFresh(st: CacheState, fs: FileSystem, client: OctetString, query: OctetString, path: WString)
    requires IdsBelowNext(st)
    ensures var (r, id) := SafeMount(st, fs, client, query, path);
            && (id.Some? <==> fs(path).Some?)
            && (id.Some? ==> id.value == st.next && id.value !in st.mounts)
            && (st.next + 1 < TWO_64 ==> IdsBelowNext(r) && r.next == st.next + 1)
  {}

  // ----- the cache only grows -----

  /** Every mount of a is in b, with the same path and handle. */
  ghost predicate Grows(a: CacheState, b: CacheState)
  {
    forall id :: id in a.mounts ==>
      id in b.mounts && b.mounts[id].path == a.mounts[id].path && b.mounts[id].handle == a.mounts[id].handle
  }

  lemma SafeMountGrows(st: CacheState, fs: FileSystem, client: OctetString, query: OctetString, path: WString)
    ensures Grows(st, SafeMount(st, fs, client, query, path).0)
  {}

  lemma MountSenderQueryGrows(st: CacheState, client: OctetString, id: u64, query: OctetString)
    requires id in st.mounts
    ensures Grows(st, MountSender(st, client, id)) && Grows(st, MountSenderQuery(st, client, id, query))
  {}
}
