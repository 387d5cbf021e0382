/** Runs of one cache in memory: mounts, and restores of any bytes at any time. */
module CacheRuns {
  import opened Bytes
  import opened MountCache
  import opened MountRestore
  import opened MountImage
  import opened MountProgram
  import Aliases = MountAliases
  import BinaryReader

  datatype Step =
    | MountStep(store: Aliases.Store, fs: FileSystem, sender: OctetString, query: OctetString)
    | RestoreStep(fs: FileSystem, binary: seq<byte>)

  function Next(st: CacheState, step: Step): CacheState
    requires Inv(st)
  {
    match step
    case MountStep(store, fs, sender, query) => Mnt(st, store, fs, sender, query).0
    case RestoreStep(fs, binary) => Restored(st, fs, binary)
  }

  /** The state after the steps, on from a new cache. */
  ghost function After(steps: seq<Step>): (st: CacheState)
    ensures Inv(st)
  {
    if steps == [] then
      NewCacheInv();
      NewCache()
    else
      var before := After(steps[..|steps| - 1]);
      NextInv(before, steps[|steps| - 1]);
      Next(before, steps[|steps| - 1])
  }

  lemma NextInv(st: CacheState, step: Step)
    requires Inv(st)
    ensures Inv(Next(st, step))
  {
    hide Inv, Mnt, Restored;
    match step
    case MountStep(store, fs, sender, query) =>
      MntInv(st, store, fs, sender, query);
    case RestoreStep(fs, binary) =>
      RestoredInv(st, fs, binary);
  }

  lemma NextGrows(st: CacheState, step: Step)
    requires Inv(st)
    ensures Grows(st, Next(st, step))
  {
    hide Inv, Mnt, Restored;
    match step
    case MountStep(store, fs, sender, query) =>
      MntGrows(st, store, fs, sender, query);
    case RestoreStep(fs, binary) =>
      RestoredGrows(st, fs, binary);
  }

  /** Whatever is mounted and whatever bytes are restored, in any order: no mount
      is lost, and none changes its path or handle. */
  lemma {:induction false} MountsAreForever(steps: seq<Step>, more: seq<Step>)
    ensures Grows(After(steps), After(steps + more))
    decreases more
  {
    hide Inv, Next;
    if more == [] {
      assert steps + more == steps;
    } else {
      var front, last := more[..|more| - 1], more[|more| - 1];
      assert (steps + more)[..|steps + more| - 1] == steps + front;
      MountsAreForever(steps, front);
      NextGrows(After(steps + front), last);
    }
  }

  /** In every reachable state the handles are all different: a mount's handle
      names no other mount. */
  lemma HandlesAreUnique(steps: seq<Step>, a: u64, b: u64)
    ensures var mounts := After(steps).mounts;
            a in mounts && b in mounts && mounts[a].handle == mounts[b].handle ==> a == b
  {
    hide After;
  }

  // ----- fresh ids over runs -----

  /** What a caller can see coming: a new mount that takes the last of all ids while
      it or another mount is there, or restored bytes with that id and a path that
      opens. */
  predicate Exhausts(st: CacheState, step: Step)
  {
    match step
    case MountStep(store, fs, sender, query) =>
      var path := Aliases.Resolve(store, query);
      query !in st.queries && path !in st.windows && st.next == TOP_ID && (fs(path).Some? || st.mounts != map[])
    case RestoreStep(fs, binary) =>
      var v := BinaryReader.Whole(binary);
      TopIdOpens(fs, v, Add32(0, 4), v.Get32(0))
  }

  lemma MntFreshIff(st: CacheState, store: Aliases.Store, fs: FileSystem, sender: OctetString, query: OctetString)
    requires Inv(st) && IdsBelowNext(st)
    ensures IdsBelowNext(Mnt(st, store, fs, sender, query).0) <==> !Exhausts(st, MountStep(store, fs, sender, query))
  {
    QueryOrWindowsAlive(st);
    hide Inv, SafeMount;
    var path := Aliases.Resolve(store, query);
    if query in st.queries || path in st.windows {
      hide ClientSet;
    } else {
      NewMountFreshIff(st, fs, sender, query, path);
      hide IdsBelowNext;
    }
  }

  lemma NewMountFreshIff(st: CacheState, fs: FileSystem, sender: OctetString, query: OctetString, path: WString)
    requires IdsBelowNext(st)
    ensures IdsBelowNext(SafeMount(st, fs, sender, query, path).0) <==>
            st.next != TOP_ID || (fs(path).None? && st.mounts == map[])
  {
    SafeMountFresh(st, fs, sender, query, path);
    var (after, id) := SafeMount(st, fs, sender, query, path);
    if st.next == TOP_ID {
      assert after.next == 0;
      if id.Some? {
        assert TOP_ID in after.mounts;
      } else {
        assert after.mounts == st.mounts;
        if m :| m in st.mounts {
          assert m in after.mounts;
        }
      }
    }
  }

  lemma NextFreshIff(st: CacheState, step: Step)
    requires Inv(st) && IdsBelowNext(st)
    ensures IdsBelowNext(Next(st, step)) <==> !Exhausts(st, step)
  {
    hide Inv, Mnt, Restored, TopIdOpens, IdsBelowNext;
    match step
    case MountStep(store, fs, sender, query) =>
      MntFreshIff(st, store, fs, sender, query);
      hide Exhausts;
    case RestoreStep(fs, binary) =>
      RestoredIdsIff(st, fs, binary);
  }

  ghost predicate FreshAt(steps: seq<Step>, i: nat)
    requires i <= |steps|
  {
    IdsBelowNext(After(steps[..i]))
  }

  ghost predicate ExhaustedAt(steps: seq<Step>, i: nat)
    requires i < |steps|
  {
    Exhausts(After(steps[..i]), steps[i])
  }

  lemma FreshAtNext(steps: seq<Step>, i: nat)
    requires i < |steps| && FreshAt(steps, i)
    ensures FreshAt(steps, i + 1) <==> !ExhaustedAt(steps, i)
  {
    assert steps[..i + 1][..i] == steps[..i];
    NextFreshIff(After(steps[..i]), steps[i]);
    hide Inv, Next, Exhausts, IdsBelowNext;
  }

  lemma {:induction false} FreshUpTo(steps: seq<Step>, i: nat)
    requires i <= |steps| && forall j :: 0 <= j < i ==> !ExhaustedAt(steps, j)
    ensures FreshAt(steps, i)
  {
    if i == 0 {
      NewCacheInv();
    } else {
      FreshUpTo(steps, i - 1);
      FreshAtNext(steps, i - 1);
      hide FreshAt, ExhaustedAt;
    }
  }

  /** All ids stay below the next one throughout a run exactly when no step of it
      exhausts the ids; a new mount's id is then always one that no mount has. */
  lemma FreshThroughoutIff(steps: seq<Step>)
    ensures (forall i :: 0 <= i <= |steps| ==> FreshAt(steps, i)) <==>
            (forall i :: 0 <= i < |steps| ==> !ExhaustedAt(steps, i))
  {
    hide FreshAt, ExhaustedAt;
    if forall i :: 0 <= i <= |steps| ==> FreshAt(steps, i) {
      forall i | 0 <= i < |steps| ensures !ExhaustedAt(steps, i) {
        FreshAtNext(steps, i);
      }
    }
    if forall i :: 0 <= i < |steps| ==> !ExhaustedAt(steps, i) {
      forall i | 0 <= i <= |steps| ensures FreshAt(steps, i) {
        FreshUpTo(steps, i);
      }
    }
  }
}
