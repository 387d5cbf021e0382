/** Runs of the server: mounts, file procedures and restarts in any order, with
    any alias table and any file system at each step. */
module ServerRuns {
  import opened Wrappers
  import opened Bytes
  import opened FileHandle
  import opened MountCache
  import opened MountSave
  import opened MountRestore
  import opened MountProgram
  import opened HandleProcedures
  import Aliases = MountAliases
  import ReadDirPlus

  datatype Step =
    | MountStep(store: Aliases.Store, fs: FileSystem, sender: OctetString, query: OctetString)
    | LookupStep(w: FileWorld, directory: seq<byte>, name: OctetString)
    | CreateStep(w: FileWorld, directory: seq<byte>, how: Option<u32>, name: OctetString)
    | ListStep(w: FileWorld, directory: seq<byte>, entry: ReadDirPlus.DirEntry)
    | RestartStep(orders: Orders, reopened: FileSystem)

  /** The cache, and every handle given to a client so far. */
  datatype Server = Server(cache: CacheState, issued: set<seq<byte>>)

  function NewServer(): Server
  {
    Server(NewCache(), {})
  }

  /** What is found or made under a name lies on its directory's volume. */
  ghost predicate OneVolume(w: FileWorld, directory: seq<byte>, name: OctetString)
    requires SIZE <= |directory|
  {
    var id := ViewBinary(directory).id;
    && (w.child(id.file, name).Present? ==> w.child(id.file, name).id.volume == id.volume)
    && (w.create(id.file, name).Some? ==> w.create(id.file, name).value.volume == id.volume)
  }

  /** What a step may assume. A file procedure may be called with any handle of
      full size; a restart finds an image below 4 GB and every saved path again. */
  ghost predicate CanStep(s: Server, step: Step)
  {
    match step
    case MountStep(_, _, _, _) => true
    case LookupStep(w, directory, name) => SIZE <= |directory| && OneVolume(w, directory, name)
    case CreateStep(w, directory, _, name) => SIZE <= |directory| && OneVolume(w, directory, name)
    case ListStep(_, directory, _) => SIZE <= |directory|
    case RestartStep(orders, reopened) =>
      OrdersFit(orders, s.cache) && ImageFits(s.cache, orders) && Reopens(reopened, s.cache.mounts)
  }

  lemma InvSizes(st: CacheState)
    requires Inv(st)
    ensures HandlesSized(st)
  {}

  ghost function Give(s: Server, r: Result<seq<byte>, u32>): Server
  {
    if r.Success? then s.(issued := s.issued + {r.value}) else s
  }

  ghost function Next(s: Server, step: Step): Server
    requires Inv(s.cache) && CanStep(s, step)
  {
    InvSizes(s.cache);
    match step
    case MountStep(store, fs, sender, query) =>
      var (after, handle) := Mnt(s.cache, store, fs, sender, query);
      Server(after, s.issued + if handle.Some? then {handle.value} else {})
    case LookupStep(w, directory, name) => Give(s, Lookup(s.cache, w, directory, name))
    case CreateStep(w, directory, how, name) => Give(s, Create(s.cache, w, directory, how, name))
    case ListStep(w, directory, entry) => Give(s, ListEntry(s.cache, w, directory, entry))
    case RestartStep(orders, reopened) => s.(cache := Restart(s.cache, orders, reopened))
  }

  /** A run: states joined by steps, from a new server on. */
  ghost predicate IsRun(states: seq<Server>, steps: seq<Step>)
  {
    && |states| == |steps| + 1
    && states[0] == NewServer()
    && forall i :: 0 <= i < |steps| ==> StepAt(states, steps, i)
  }

  /** A state that broke the cache invariant could be followed by anything; that
      there is none is proved, not assumed. */
  ghost predicate StepAt(states: seq<Server>, steps: seq<Step>, i: nat)
    requires |states| == |steps| + 1 && i < |steps|
  {
    Inv(states[i].cache) ==> CanStep(states[i], steps[i]) && states[i + 1] == Next(states[i], steps[i])
  }

  // ----- one step -----

  /** b keeps the mounts of a, and the mounts its queries lead to. */
  ghost predicate Keeps(a: CacheState, b: CacheState)
  {
    && Grows(a, b)
    && forall q :: q in a.queries ==> q in b.queries && b.queries[q] == a.queries[q]
  }

  lemma SenderKeeps(st: CacheState, sender: OctetString, id: u64, query: OctetString)
    requires id in st.mounts
    ensures Keeps(st, MountSender(st, sender, id))
    ensures query !in st.queries ==> Keeps(st, MountSenderQuery(st, sender, id, query))
  {
    MountSenderQueryGrows(st, sender, id, query);
    hide Grows;
  }

  lemma SafeMountKeeps(st: CacheState, fs: FileSystem, sender: OctetString, query: OctetString, path: WString)
    requires query !in st.queries
    ensures Keeps(st, SafeMount(st, fs, sender, query, path).0)
  {
    SafeMountGrows(st, fs, sender, query, path);
    hide Grows;
  }

  lemma MntKeeps(st: CacheState, store: Aliases.Store, fs: FileSystem, sender: OctetString, query: OctetString)
    requires Inv(st)
    ensures Keeps(st, Mnt(st, store, fs, sender, query).0)
  {
    QueryOrWindowsAlive(st);
    hide Inv, Keeps, MountSender, MountSenderQuery, SafeMount;
    if query in st.queries {
      SenderKeeps(st, sender, st.queries[query], query);
    } else {
      var path := Aliases.Resolve(store, query);
      if path in st.windows {
        SenderKeeps(st, sender, st.windows[path], query);
      } else {
        SafeMountKeeps(st, fs, sender, query, path);
      }
    }
  }

  /** Every step keeps the invariant, every mount with its path and handle, and
      where every query leads. */
  lemma StepKeeps(s: Server, step: Step)
    requires Inv(s.cache) && CanStep(s, step)
    ensures Inv(Next(s, step).cache) && Keeps(s.cache, Next(s, step).cache)
    ensures s.issued <= Next(s, step).issued
  {
    hide Inv, OneVolume, OrdersFit, ImageFits, Reopens, Mnt, Restart, Lookup, Create, ListEntry;
    match step
    case MountStep(store, fs, sender, query) =>
      MntInv(s.cache, store, fs, sender, query);
      MntKeeps(s.cache, store, fs, sender, query);
    case RestartStep(orders, reopened) =>
      SaveRestore(s.cache, orders, reopened);
    case _ =>
  }

  /** Every handle given out is large enough to look at and passes the check. */
  ghost predicate AllPass(s: Server)
  {
    Inv(s.cache) && forall h :: h in s.issued ==> Passes(s.cache, h)
  }

  ghost predicate Passes(st: CacheState, h: seq<byte>)
    requires Inv(st)
  {
    SIZE <= |h| && (InvSizes(st); Guard(st, h))
  }

  lemma PassesGrows(a: CacheState, b: CacheState, h: seq<byte>)
    requires Inv(a) && Inv(b) && Grows(a, b) && Passes(a, h)
    ensures Passes(b, h)
  {
    hide ViewBinary;
  }

  lemma StoredPasses(st: CacheState, id: u64)
    requires Inv(st) && id in st.mounts
    ensures Passes(st, st.mounts[id].handle)
  {
    hide ViewBinary;
  }

  lemma StoredStays(
    st: CacheState, store: Aliases.Store, fs: FileSystem, sender: OctetString, query: OctetString, id: u64)
    requires Inv(st) && id in st.mounts
    ensures var after := Mnt(st, store, fs, sender, query).0;
            id in after.mounts && after.mounts[id].handle == st.mounts[id].handle
  {
    hide Inv, Mnt;
    MntGrows(st, store, fs, sender, query);
  }

  lemma JoinedHas(st: CacheState, after: CacheState, sender: OctetString, id: u64)
    ensures Joined(st, after, sender, id) ==> id in after.mounts
  {}

  /** The handle MNT answers with is the one stored for the mount that the query
      leads to from then on. */
  lemma MntHandleStored(st: CacheState, store: Aliases.Store, fs: FileSystem, sender: OctetString, query: OctetString)
    requires Inv(st)
    ensures var (after, handle) := Mnt(st, store, fs, sender, query);
            handle.Some? ==> query in after.queries && after.queries[query] in after.mounts
                             && handle.value == after.mounts[after.queries[query]].handle
  {
    hide Inv, Mnt, Names, Joined;
    if query in st.queries {
      MntKnown(st, store, fs, sender, query);
      StoredStays(st, store, fs, sender, query, st.queries[query]);
    } else if Aliases.Resolve(store, query) in st.windows {
      MntMounted(st, store, fs, sender, query);
      StoredStays(st, store, fs, sender, query, st.windows[Aliases.Resolve(store, query)]);
    } else {
      MntNew(st, store, fs, sender, query);
      JoinedHas(st, Mnt(st, store, fs, sender, query).0, sender, st.next);
    }
  }

  lemma GuardPasses(st: CacheState, h: seq<byte>)
    requires Inv(st) && HandlesSized(st) && SIZE <= |h| && Guard(st, h)
    ensures Passes(st, h)
  {
    hide Inv, Guard;
  }

  lemma LookupPasses(st: CacheState, w: FileWorld, directory: seq<byte>, name: OctetString)
    requires Inv(st) && SIZE <= |directory| && OneVolume(w, directory, name)
    ensures HandlesSized(st)
    ensures Lookup(st, w, directory, name).Success? ==> Passes(st, Lookup(st, w, directory, name).value)
  {
    InvSizes(st);
    hide Inv, ViewBinary, Guard, Issue, HandlesSized, Passes;
    var r := Lookup(st, w, directory, name);
    if r.Success? && name != DOT {
      IssuedPassesIff(st, directory, w.child(ViewBinary(directory).id.file, name).id);
    }
    if r.Success? {
      GuardPasses(st, r.value);
    }
  }

  lemma CreateMeaning(st: CacheState, w: FileWorld, directory: seq<byte>, how: Option<u32>, name: OctetString)
    requires HandlesSized(st) && SIZE <= |directory|
    ensures var r := Create(st, w, directory, how, name);
            var made := w.create(ViewBinary(directory).id.file, name);
            r.Success? ==> Guard(st, directory) && made.Some? && r.value == Issue(directory, made.value)
  {
    hide ViewBinary, Guard, Issue, HandlesSized;
  }

  lemma CreatePasses(st: CacheState, w: FileWorld, directory: seq<byte>, how: Option<u32>, name: OctetString)
    requires Inv(st) && SIZE <= |directory| && OneVolume(w, directory, name)
    ensures HandlesSized(st)
    ensures Create(st, w, directory, how, name).Success? ==> Passes(st, Create(st, w, directory, how, name).value)
  {
    InvSizes(st);
    hide Inv, ViewBinary, Create, Guard, Issue, HandlesSized, Passes;
    CreateMeaning(st, w, directory, how, name);
    var r := Create(st, w, directory, how, name);
    if r.Success? {
      IssuedPassesIff(st, directory, w.create(ViewBinary(directory).id.file, name).value);
      GuardPasses(st, r.value);
    }
  }

  lemma ListPasses(st: CacheState, w: FileWorld, directory: seq<byte>, e: ReadDirPlus.DirEntry)
    requires Inv(st) && SIZE <= |directory|
    ensures HandlesSized(st)
    ensures ListEntry(st, w, directory, e).Success? ==> Passes(st, ListEntry(st, w, directory, e).value)
  {
    InvSizes(st);
    hide Inv, ViewBinary, Guard, ReadDirPlus.EntryHandle, HandlesSized, Passes;
    if Guard(st, directory) {
      ListedPasses(st, directory, e);
      GuardPasses(st, ReadDirPlus.EntryHandle(ViewBinary(directory), e));
    }
  }

  /** A handle given out by a step passes the check right after it. */
  lemma GivenPasses(s: Server, step: Step, h: seq<byte>)
    requires Inv(s.cache) && CanStep(s, step) && h in Next(s, step).issued && h !in s.issued
    ensures Inv(Next(s, step).cache) && Passes(Next(s, step).cache, h)
  {
    StepKeeps(s, step);
    InvSizes(s.cache);
    hide Inv, OneVolume, Passes, OrdersFit, ImageFits, Reopens, Mnt, Restart, Lookup, Create, ListEntry;
    match step
    case MountStep(store, fs, sender, query) =>
      MntHandleStored(s.cache, store, fs, sender, query);
      var after := Mnt(s.cache, store, fs, sender, query).0;
      StoredPasses(after, after.queries[query]);
    case LookupStep(w, directory, name) =>
      LookupPasses(s.cache, w, directory, name);
    case CreateStep(w, directory, how, name) =>
      CreatePasses(s.cache, w, directory, how, name);
    case ListStep(w, directory, entry) =>
      ListPasses(s.cache, w, directory, entry);
    case RestartStep(orders, reopened) =>
  }

  lemma StepAllPass(s: Server, step: Step)
    requires AllPass(s) && CanStep(s, step)
    ensures AllPass(Next(s, step))
  {
    StepKeeps(s, step);
    var t := Next(s, step);
    hide Inv, CanStep, Next, Passes, Grows;
    forall h | h in t.issued ensures Passes(t.cache, h) {
      if h in s.issued {
        PassesGrows(s.cache, t.cache, h);
      } else {
        GivenPasses(s, step, h);
      }
    }
  }

  // ----- whole runs -----

  lemma NewAllPass()
    ensures AllPass(NewServer())
  {
    NewCacheInv();
    hide Inv;
  }

  /** The cache invariant holds after any steps, and every handle given out by
      then passes the mount and volume check. */
  lemma {:induction false} RunAllPass(states: seq<Server>, steps: seq<Step>, i: nat)
    requires IsRun(states, steps) && i <= |steps|
    ensures AllPass(states[i])
  {
    hide CanStep, Next, Inv, Passes;
    if i == 0 {
      NewAllPass();
    } else {
      RunAllPass(states, steps, i - 1);
      assert Inv(states[i - 1].cache);
      hide AllPass;
      assert StepAt(states, steps, i - 1);
      StepAllPass(states[i - 1], steps[i - 1]);
    }
  }

  lemma KeepsTransitive(a: CacheState, b: CacheState, c: CacheState)
    requires Keeps(a, b) && Keeps(b, c)
    ensures Keeps(a, c)
  {}

  lemma KeepsItself(a: CacheState)
    ensures Keeps(a, a)
  {}

  /** Between any two points of a run, restarts included, no mount is lost and none
      changes its path or handle. */
  lemma {:induction false} RunKeeps(states: seq<Server>, steps: seq<Step>, i: nat, j: nat)
    requires IsRun(states, steps) && i <= j <= |steps|
    ensures Keeps(states[i].cache, states[j].cache) && states[i].issued <= states[j].issued
    decreases j
  {
    if i == j {
      KeepsItself(states[i].cache);
    } else {
      RunKeeps(states, steps, i, j - 1);
      RunAllPass(states, steps, j - 1);
      assert StepAt(states, steps, j - 1);
      hide CanStep, Next, Keeps, Inv;
      StepKeeps(states[j - 1], steps[j - 1]);
      KeepsTransitive(states[i].cache, states[j - 1].cache, states[j].cache);
    }
  }

  /** No mount id is ever bound to another mount: whatever an id stands for at some
      point of a run, it stands for at every later point. */
  lemma IdentityAcrossRestarts(states: seq<Server>, steps: seq<Step>, i: nat, j: nat, id: u64)
    requires IsRun(states, steps) && i <= j <= |steps| && id in states[i].cache.mounts
    ensures id in states[j].cache.mounts
    ensures states[j].cache.mounts[id].path == states[i].cache.mounts[id].path
    ensures states[j].cache.mounts[id].handle == states[i].cache.mounts[id].handle
  {
    RunKeeps(states, steps, i, j);
  }

  /** A handle given out at some point passes the check at every later point. */
  lemma HandleClosure(states: seq<Server>, steps: seq<Step>, i: nat, j: nat, h: seq<byte>)
    requires IsRun(states, steps) && i <= j <= |steps| && h in states[i].issued
    ensures Inv(states[j].cache) && Passes(states[j].cache, h)
  {
    RunAllPass(states, steps, j);
    RunKeeps(states, steps, i, j);
  }

  /** Once a path was mounted, mounting it again at any later point, by any client,
      with any alias table and file system, answers with the same handle. */
  lemma MountIsStable(states: seq<Server>, steps: seq<Step>, i: nat, j: nat,
                      store: Aliases.Store, fs: FileSystem, sender: OctetString)
    requires IsRun(states, steps) && i < j <= |steps| && steps[i].MountStep?
    ensures Inv(states[i].cache) && Inv(states[j].cache)
    ensures var first := Mnt(states[i].cache, steps[i].store, steps[i].fs, steps[i].sender, steps[i].query).1;
            first.Some? ==> Mnt(states[j].cache, store, fs, sender, steps[i].query).1 == first
  {
    RunAllPass(states, steps, i);
    RunAllPass(states, steps, j);
    assert StepAt(states, steps, i);
    var s := steps[i];
    MntHandleStored(states[i].cache, s.store, s.fs, s.sender, s.query);
    assert states[i + 1].cache == Mnt(states[i].cache, s.store, s.fs, s.sender, s.query).0;
    RunKeeps(states, steps, i + 1, j);
    if Mnt(states[i].cache, s.store, s.fs, s.sender, s.query).1.Some? {
      MntKnown(states[j].cache, store, fs, sender, s.query);
    }
  }

  // ----- ids over runs -----

  lemma MntNext(st: CacheState, store: Aliases.Store, fs: FileSystem, sender: OctetString, query: OctetString)
    requires Inv(st) && IdsBelowNext(st) && st.next + 1 < TWO_64
    ensures var r := Mnt(st, store, fs, sender, query).0;
            IdsBelowNext(r) && st.next <= r.next <= st.next + 1
    ensures var r := Mnt(st, store, fs, sender, query).0;
            forall id :: id in r.mounts && id !in st.mounts ==> id == st.next
  {
    QueryOrWindowsAlive(st);
    hide Inv, MountSender, MountSenderQuery, SafeMount;
    if query in st.queries {
      SenderIds(st, sender, st.queries[query], query);
    } else {
      var path := Aliases.Resolve(store, query);
      if path in st.windows {
        SenderIds(st, sender, st.windows[path], query);
      } else {
        SafeMountFresh(st, fs, sender, query, path);
        SafeMountNewId(st, fs, sender, query, path);
      }
    }
  }

  lemma SenderIds(st: CacheState, sender: OctetString, id: u64, query: OctetString)
    requires id in st.mounts
    ensures MountSender(st, sender, id).mounts.Keys == st.mounts.Keys
    ensures MountSenderQuery(st, sender, id, query).mounts.Keys == st.mounts.Keys
    ensures MountSender(st, sender, id).next == MountSenderQuery(st, sender, id, query).next == st.next
  {}

  lemma SafeMountNewId(st: CacheState, fs: FileSystem, sender: OctetString, query: OctetString, path: WString)
    ensures forall id :: id in SafeMount(st, fs, sender, query, path).0.mounts && id !in st.mounts ==> id == st.next
  {}

  lemma RestartIdsBelow(st: CacheState, o: Orders, fs: FileSystem)
    requires OrdersFit(o, st) && ImageFits(st, o) && IdsBelowNext(st)
    requires OneAbove(Restart(st, o, fs).next, st.mounts.Keys - {TOP_ID})
    ensures IdsBelowNext(Restart(st, o, fs))
    ensures FIRST_MOUNT <= st.next ==> Restart(st, o, fs).next <= st.next
  {
    hide OrdersFit, ImageFits, Restart;
    var r := Restart(st, o, fs);
    forall id | id in r.mounts ensures id < r.next {
      RestartIds(st, o, fs, id);
      assert id in st.mounts.Keys - {TOP_ID};
    }
    if r.next != FIRST_MOUNT {
      assert r.next - 1 in st.mounts;
    }
  }

  lemma StepNext(s: Server, step: Step)
    requires Inv(s.cache) && CanStep(s, step)
    requires IdsBelowNext(s.cache) && FIRST_MOUNT <= s.cache.next && s.cache.next + 1 < TWO_64
    ensures IdsBelowNext(Next(s, step).cache)
    ensures FIRST_MOUNT <= Next(s, step).cache.next <= s.cache.next + 1
  {
    hide Inv, OneVolume, OrdersFit, ImageFits, Reopens, Mnt, Restart, Lookup, Create, ListEntry, IdsBelowNext;
    match step
    case MountStep(store, fs, sender, query) =>
      MntNext(s.cache, store, fs, sender, query);
    case RestartStep(orders, reopened) =>
      RestartNext(s.cache, orders, reopened);
      RestartIdsBelow(s.cache, orders, reopened);
    case _ =>
  }

  lemma NewIdsBelow()
    ensures IdsBelowNext(NewServer().cache)
  {}

  /** Short of 2^64 steps, ids stay below the next id, which counts at most the
      steps; so a new mount's id is one no mount of the run ever had. */
  lemma {:induction false} IdsStayFresh(states: seq<Server>, steps: seq<Step>, i: nat)
    requires IsRun(states, steps) && i <= |steps| && i + 2 < TWO_64
    ensures IdsBelowNext(states[i].cache) && FIRST_MOUNT <= states[i].cache.next <= i + 1
  {
    hide CanStep, Next, IdsBelowNext, Inv;
    if i == 0 {
      NewIdsBelow();
    } else {
      IdsStayFresh(states, steps, i - 1);
      RunAllPass(states, steps, i - 1);
      assert StepAt(states, steps, i - 1);
      StepNext(states[i - 1], steps[i - 1]);
    }
  }

  /** The id of a mount that appears in step j was never a mount's id before. */
  lemma NewIdNeverUsed(states: seq<Server>, steps: seq<Step>, i: nat, j: nat, id: u64)
    requires IsRun(states, steps) && i <= j < |steps|
    requires id in states[j + 1].cache.mounts && id !in states[j].cache.mounts
    ensures id !in states[i].cache.mounts
  {
    RunKeeps(states, steps, i, j);
  }
}
