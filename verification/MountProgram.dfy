/** The MNT procedure. */
module MountProgram {
  import opened Wrappers
  import opened Bytes
  import opened FileHandle
  import opened MountCache
  import Aliases = MountAliases

  // ----- MNT -----

  /** The handle for OK, None for ERR_NOENT. */
  type MountResult = Option<seq<byte>>

  function HandleOf(st: CacheState, id: Option<u64>): MountResult
    requires id.Some? ==> id.value in st.mounts
  {
    if id.Some? then Some(st.mounts[id.value].handle) else None
  }

  /** The three-way decision: the path was asked for before; its Windows path is
      mounted; or it is mounted anew. */
  function Mnt(st: CacheState, store: Aliases.Store, fs: FileSystem, sender: OctetString, query: OctetString):
    (CacheState, MountResult)
    requires Inv(st)
  {
    if query in st.queries then
      var after := MountSender(st, sender, st.queries[query]);
      (after, HandleOf(after, Some(st.queries[query])))
    else
      var path := Aliases.Resolve(store, query);
      if path in st.windows then
        var after := MountSenderQuery(st, sender, st.windows[path], query);
        (after, HandleOf(after, Some(st.windows[path])))
      else
        var (after, id) := SafeMount(st, fs, sender, query, path);
        (after, HandleOf(after, id))
  }

  class MountProgram {
    const cache: MountCache
    const aliases: Aliases.MountAliases

    constructor ()
      ensures fresh(cache) && fresh(aliases)
      ensures cache.State() == NewCache() && aliases.store == []
    {
      cache := new MountCache();
      aliases := new Aliases.MountAliases();
    }

    method Mount(fs: FileSystem, sender: OctetString, query: OctetString) returns (result: MountResult)
      requires Inv(cache.State())
      modifies cache
      ensures Inv(cache.State())
      ensures (cache.State(), result) == Mnt(old(cache.State()), aliases.store, fs, sender, query)
    {
      ghost var st := cache.State();
      MntInv(st, aliases.store, fs, sender, query);
      QueryOrWindowsAlive(st);
      hide Inv, MountSender, MountSenderQuery, SafeMount;
      var id := cache.FindQuery(query);
      if id.Some? {
        cache.SafeMountSender(sender, id.value);
      } else {
        var windowsPath := aliases.ByAliasPath(query);
        id := cache.FindWindows(windowsPath);
        if id.Some? {
          cache.SafeMountSenderQuery(sender, id.value, query);
        } else {
          id := cache.SafeMountNew(fs, sender, query, windowsPath);
        }
      }
      if id.None? {
        return None;
      }
      MountedAlive(st, aliases.store, fs, sender, query);
      result := cache.Get(id.value);
    }
  }

  lemma QueryOrWindowsAlive(st: CacheState)
    requires Inv(st)
    ensures forall q :: q in st.queries ==> st.queries[q] in st.mounts
    ensures forall w :: w in st.windows ==> st.windows[w] in st.mounts
  {}

  lemma MountedAlive(st: CacheState, store: Aliases.Store, fs: FileSystem, sender: OctetString, query: OctetString)
    requires Inv(st)
    ensures query in st.queries ==> st.queries[query] in MountSender(st, sender, st.queries[query]).mounts
    ensures var path := Aliases.Resolve(store, query);
            path in st.windows ==> st.windows[path] in MountSenderQuery(st, sender, st.windows[path], query).mounts
  {}

  /** MNT loses and changes no mount. */
  lemma MntGrows(st: CacheState, store: Aliases.Store, fs: FileSystem, sender: OctetString, query: OctetString)
    requires Inv(st)
    ensures Grows(st, Mnt(st, store, fs, sender, query).0)
  {
    QueryOrWindowsAlive(st);
    hide Inv, Grows, MountSender, MountSenderQuery, SafeMount;
    if query in st.queries {
      MountSenderQueryGrows(st, sender, st.queries[query], query);
    } else {
      var path := Aliases.Resolve(store, query);
      if path in st.windows {
        MountSenderQueryGrows(st, sender, st.windows[path], query);
      } else {
        SafeMountGrows(st, fs, sender, query, path);
      }
    }
  }

  lemma MntInv(st: CacheState, store: Aliases.Store, fs: FileSystem, sender: OctetString, query: OctetString)
    requires Inv(st)
    ensures Inv(Mnt(st, store, fs, sender, query).0)
  {
    QueryOrWindowsAlive(st);
    hide Inv, MountSender, MountSenderQuery, SafeMount;
    if query in st.queries {
      MountSenderInv(st, sender, st.queries[query]);
    } else {
      var path := Aliases.Resolve(store, query);
      if path in st.windows {
        MountSenderQueryInv(st, sender, st.windows[path], query);
      } else {
        SafeMountInv(st, fs, sender, query, path);
      }
    }
  }

  // ----- which mount serves a path -----

  /** The sender is now a client of the mount, and nobody else of anything new. */
  ghost predicate Joined(st: CacheState, after: CacheState, sender: OctetString, id: u64)
  {
    && st.mounts.Keys + {id} == after.mounts.Keys
    && forall m, c :: m in after.mounts ==>
         (c in after.mounts[m].clients <==>
            (m in st.mounts && c in st.mounts[m].clients) || (c == sender && m == id))
  }

  lemma SenderJoins(st: CacheState, sender: OctetString, id: u64, query: OctetString)
    requires id in st.mounts
    ensures Joined(st, MountSender(st, sender, id), sender, id)
    ensures Joined(st, MountSenderQuery(st, sender, id, query), sender, id)
    ensures MountSender(st, sender, id).mounts[id].handle == st.mounts[id].handle
    ensures MountSenderQuery(st, sender, id, query).mounts[id].handle == st.mounts[id].handle
    ensures MountSender(st, sender, id).mounts[id].path == st.mounts[id].path
    ensures MountSenderQuery(st, sender, id, query).mounts[id].path == st.mounts[id].path
    ensures MountSender(st, sender, id).queries == st.queries
    ensures MountSenderQuery(st, sender, id, query).queries == st.queries[query := id]
  {
    SenderIsListed(st, sender, id);
    SenderIsListed(st.(queries := st.queries[query := id]), sender, id);
    hide MountSender;
  }

  /** A path that was asked for before is answered with the mount it leads to. */
  lemma MntKnown(st: CacheState, store: Aliases.Store, fs: FileSystem, sender: OctetString, query: OctetString)
    requires Inv(st) && query in st.queries
    ensures var (after, handle) := Mnt(st, store, fs, sender, query);
            && after.queries == st.queries
            && st.queries[query] in st.mounts && handle == Some(st.mounts[st.queries[query]].handle)
            && Joined(st, after, sender, st.queries[query])
  {
    QueryOrWindowsAlive(st);
    SenderJoins(st, sender, st.queries[query], query);
    hide Inv, MountSender, Joined;
  }

  /** A path asked for the first time that resolves to a mounted path is answered
      with the mount in the index, which has that path. */
  lemma MntMounted(st: CacheState, store: Aliases.Store, fs: FileSystem, sender: OctetString, query: OctetString)
    requires Inv(st) && query !in st.queries && Aliases.Resolve(store, query) in st.windows
    ensures var path := Aliases.Resolve(store, query);
            var id := st.windows[path];
            var (after, handle) := Mnt(st, store, fs, sender, query);
            && after.queries == st.queries[query := id]
            && id in st.mounts && st.mounts[id].path == path && handle == Some(st.mounts[id].handle)
            && Joined(st, after, sender, id)
  {
    QueryOrWindowsAlive(st);
    InvPaths(st);
    SenderJoins(st, sender, st.windows[Aliases.Resolve(store, query)], query);
    hide Inv, MountSenderQuery, Joined;
  }

  /** Any other path is answered exactly when it opens and the next id is free: with
      a new mount under that id, whose handle names the very object that was opened. */
  lemma MntNew(st: CacheState, store: Aliases.Store, fs: FileSystem, sender: OctetString, query: OctetString)
    requires Inv(st) && query !in st.queries && Aliases.Resolve(store, query) !in st.windows
    ensures var path := Aliases.Resolve(store, query);
            var (after, handle) := Mnt(st, store, fs, sender, query);
            && (handle.Some? <==> fs(path).Some? && st.next !in st.mounts)
            && (handle.None? ==> after == st.(next := (st.next + 1) % TWO_64))
            && (handle.Some? ==>
                  && after.queries == st.queries[query := st.next]
                  && Joined(st, after, sender, st.next)
                  && Names(after.mounts[st.next], st.next, fs(path).value)
                  && handle == Some(after.mounts[st.next].handle)
                  && ViewBinary(handle.value) == MountFilehandle(st.next, fs(path).value.id))
  {
    hide Inv, SafeMount, ViewBinary, Joined;
    SafeMountMeaning(st, fs, sender, query, Aliases.Resolve(store, query));
  }

  lemma SafeMountMeaning(st: CacheState, fs: FileSystem, sender: OctetString, query: OctetString, path: WString)
    ensures var (after, m) := SafeMount(st, fs, sender, query, path);
            && m == (if fs(path).Some? && st.next !in st.mounts then Some(st.next) else None)
            && (m.None? ==> after == st.(next := (st.next + 1) % TWO_64))
            && (m.Some? ==>
                  && after.queries == st.queries[query := st.next]
                  && Joined(st, after, sender, st.next)
                  && st.next in after.mounts && Names(after.mounts[st.next], st.next, fs(path).value))
  {
    var numbered := st.(next := (st.next + 1) % TWO_64);
    PathIsFiled(numbered, fs, st.next, path);
    var (filed, id) := MountWindowsPath(numbered, fs, st.next, path);
    if id.Some? {
      SenderJoins(filed, sender, st.next, query);
      JoinsNew(st, filed, MountSenderQuery(filed, sender, st.next, query), sender, st.next);
    }
    hide MountWindowsPath, MountSenderQuery, ViewBinary, Joined;
  }

  lemma JoinsNew(st: CacheState, filed: CacheState, after: CacheState, sender: OctetString, id: u64)
    requires id !in st.mounts && id in filed.mounts && filed.mounts == st.mounts[id := filed.mounts[id]]
    requires filed.mounts[id].clients == {} && Joined(filed, after, sender, id)
    ensures Joined(st, after, sender, id)
  {}

  /** A path asked for the first time is served by a mount that was there exactly
      when the alias table resolves it to the final name of a mounted directory. */
  lemma MntReusesIff(st: CacheState, store: Aliases.Store, fs: FileSystem, sender: OctetString, query: OctetString)
    requires Inv(st) && query !in st.queries
    ensures var (after, handle) := Mnt(st, store, fs, sender, query);
            handle.Some? ==>
              && query in after.queries
              && (after.queries[query] in st.mounts <==> Aliases.Resolve(store, query) in st.windows)
  {
    QueryOrWindowsAlive(st);
    hide Inv, ClientSet, NewEntry;
  }

  lemma MntFiles(st: CacheState, store: Aliases.Store, fs: FileSystem, sender: OctetString, query: OctetString)
    requires Inv(st) && query !in st.queries && Aliases.Resolve(store, query) !in st.windows
    ensures var (after, handle) := Mnt(st, store, fs, sender, query);
            handle.Some? ==>
              && fs(Aliases.Resolve(store, query)).Some?
              && query in after.queries && after.queries[query] in after.mounts
              && after.mounts[after.queries[query]].path == fs(Aliases.Resolve(store, query)).value.fullpath
              && after.mounts[after.queries[query]].handle == handle.value
  {
    QueryOrWindowsAlive(st);
    hide Inv, ClientSet, CreateInBinary;
  }

  /** So another spelling of a mounted directory is mounted anew: two mounts then
      have the same path, and different handles. */
  lemma MntDuplicates(st: CacheState, store: Aliases.Store, fs: FileSystem, sender: OctetString, query: OctetString)
    requires Inv(st) && query !in st.queries
    ensures var path := Aliases.Resolve(store, query);
            var (after, handle) := Mnt(st, store, fs, sender, query);
            handle.Some? && path !in st.windows && fs(path).value.fullpath in st.windows ==>
              var first, second := st.windows[fs(path).value.fullpath], after.queries[query];
              && first in after.mounts && second in after.mounts && first != second
              && after.mounts[first].path == after.mounts[second].path
              && after.mounts[first].handle != handle.value
  {
    var path := Aliases.Resolve(store, query);
    if path !in st.windows {
      MntFiles(st, store, fs, sender, query);
      MntReusesIff(st, store, fs, sender, query);
      MntInv(st, store, fs, sender, query);
      MntGrows(st, store, fs, sender, query);
      QueryOrWindowsAlive(st);
      InvHandles(Mnt(st, store, fs, sender, query).0);
      InvPaths(st);
    }
    hide Mnt, Inv, HandlesOwn;
  }

  lemma InvHandles(st: CacheState)
    requires Inv(st)
    ensures forall a, b :: a in st.mounts && b in st.mounts && a != b ==> st.mounts[a].handle != st.mounts[b].handle
  {
    hide ViewBinary;
  }

  lemma InvPaths(st: CacheState)
    requires Inv(st)
    ensures forall w :: w in st.windows ==> st.windows[w] in st.mounts && st.mounts[st.windows[w]].path == w
  {}
}
