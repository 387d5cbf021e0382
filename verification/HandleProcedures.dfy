/** How LOOKUP, CREATE, MKDIR and READDIRPLUS accept a directory handle and issue
    new handles from it. */
module HandleProcedures {
  import opened Wrappers
  import opened Bytes
  import opened FileHandle
  import opened MountCache
  import opened Nfs3Status
  import ReadDirPlus
  import Nfs3Args

  const DOT: OctetString := [46]

  /** What the attributes of an opened object say: whether it is a directory, and
      whether it is a reparse point, read-only or a system object. */
  datatype ObjectInfo = ObjectInfo(directory: bool, guarded: bool)

  /** Opening by file id: fails, yields an object whose attributes cannot be read,
      or an object. */
  datatype ById = NotOpened | Unreadable | Object(info: ObjectInfo)

  /** Looking a name up: it does not open, what opens cannot be identified or its
      attributes cannot be read, or its identity. */
  datatype Child = Absent | Unidentified | Present(id: VolumeFileId)

  /** The file system as one call sees it. `child` looks a name up in a directory,
      `create` makes one there and yields the identity of what is then there. */
  datatype FileWorld = FileWorld(
    byId: FileId -> ById,
    child: (FileId, OctetString) -> Child,
    create: (FileId, OctetString) -> Option<VolumeFileId>)

  /** The check every procedure starts with: the mount is known and on the
      handle's volume. */
  predicate Guard(st: CacheState, handle: seq<byte>)
    requires SIZE <= |handle|
    requires forall id :: id in st.mounts ==> SIZE <= |st.mounts[id].handle|
  {
    var view := ViewBinary(handle);
    && view.mountId in st.mounts
    && ViewBinary(st.mounts[view.mountId].handle).id.volume == view.id.volume
  }

  ghost predicate HandlesSized(st: CacheState)
  {
    forall id :: id in st.mounts ==> SIZE <= |st.mounts[id].handle|
  }

  /** A handle on the directory's mount for an object. */
  function Issue(directory: seq<byte>, id: VolumeFileId): seq<byte>
    requires SIZE <= |directory|
  {
    CreateInBinary(MountFilehandle(ViewBinary(directory).mountId, id))
  }

  function Lookup(st: CacheState, w: FileWorld, directory: seq<byte>, name: OctetString): Result<seq<byte>, u32>
    requires SIZE <= |directory| && HandlesSized(st)
  {
    if !Guard(st, directory) then Failure(ERR_BADHANDLE)
    else
      var file := ViewBinary(directory).id.file;
      match w.byId(file)
      case NotOpened => Failure(ERR_ACCESS)
      case Unreadable => Failure(ERR_IO)
      case Object(info) =>
        if !info.directory then Failure(ERR_NOTDIR)
        else if name == DOT then Success(directory)
        else if SLASH in name || BACKSLASH in name then Failure(ERR_INVAL)
        else
          match w.child(file, name)
          case Absent => Failure(ERR_NO_ENTRY)
          case Unidentified => Failure(ERR_IO)
          case Present(id) => Success(Issue(directory, id))
  }

  /** CREATE, with its creation mode, and MKDIR, which has none. */
  function Create(st: CacheState, w: FileWorld, directory: seq<byte>, how: Option<u32>, name: OctetString):
    Result<seq<byte>, u32>
    requires SIZE <= |directory| && HandlesSized(st)
  {
    if !Guard(st, directory) then Failure(ERR_BADHANDLE)
    else if how == Some(Nfs3Args.EXCLUSIVE) then Failure(ERR_NOTSUPP)
    else
      var file := ViewBinary(directory).id.file;
      match w.byId(file)
      case NotOpened => Failure(ERR_ACCESS)
      case Unreadable => Failure(ERR_IO)
      case Object(info) =>
        if !info.directory then Failure(ERR_NOTDIR)
        else if info.guarded then Failure(ERR_ACCESS)
        else
          match w.create(file, name)
          case None => Failure(ERR_IO)
          case Some(id) => Success(Issue(directory, id))
  }

  /** The handle READDIRPLUS sends with an entry. */
  function ListEntry(st: CacheState, w: FileWorld, directory: seq<byte>, e: ReadDirPlus.DirEntry):
    Result<seq<byte>, u32>
    requires SIZE <= |directory| && HandlesSized(st)
  {
    if !Guard(st, directory) then Failure(ERR_BADHANDLE)
    else if w.byId(ViewBinary(directory).id.file).NotOpened? then Failure(ERR_ACCESS)
    else if w.byId(ViewBinary(directory).id.file).Unreadable? then Failure(ERR_IO)
    else Success(ReadDirPlus.EntryHandle(ViewBinary(directory), e))
  }

  // ----- what an issued handle names -----

  /** The directory handle is accepted and opens to an object. */
  predicate Reached(st: CacheState, w: FileWorld, directory: seq<byte>)
    requires SIZE <= |directory| && HandlesSized(st)
  {
    Guard(st, directory) && w.byId(ViewBinary(directory).id.file).Object?
  }

  /** The object of the directory handle is a directory. */
  predicate InDirectory(st: CacheState, w: FileWorld, directory: seq<byte>)
    requires SIZE <= |directory| && HandlesSized(st)
  {
    Reached(st, w, directory) && w.byId(ViewBinary(directory).id.file).info.directory
  }

  predicate PlainName(name: OctetString)
  {
    forall i :: 0 <= i < |name| ==> name[i] != SLASH && name[i] != BACKSLASH
  }

  lemma IssueNames(directory: seq<byte>, id: VolumeFileId)
    requires SIZE <= |directory|
    ensures |Issue(directory, id)| == SIZE
    ensures ViewBinary(Issue(directory, id)) == MountFilehandle(ViewBinary(directory).mountId, id)
  {
    ViewOfCreate(MountFilehandle(ViewBinary(directory).mountId, id));
  }

  /** LOOKUP answers "." with the directory's own handle; a plain name that is there
      with a handle on the very object, on the directory's mount; and nothing else. */
  lemma LookupNames(st: CacheState, w: FileWorld, directory: seq<byte>, name: OctetString)
    requires SIZE <= |directory| && HandlesSized(st)
    ensures var r := Lookup(st, w, directory, name);
            var view := ViewBinary(directory);
            var child := w.child(view.id.file, name);
            && (r.Success? <==> InDirectory(st, w, directory) && (name == DOT || (PlainName(name) && child.Present?)))
            && (r.Success? && name == DOT ==> r.value == directory)
            && (r.Success? && name != DOT ==>
                  |r.value| == SIZE && ViewBinary(r.value) == MountFilehandle(view.mountId, child.id))
  {
    var view := ViewBinary(directory);
    var child := w.child(view.id.file, name);
    if child.Present? {
      IssueNames(directory, child.id);
    }
    hide ViewBinary, Issue, Guard;
  }

  /** The status of a LOOKUP that fails. */
  lemma LookupFails(st: CacheState, w: FileWorld, directory: seq<byte>, name: OctetString)
    requires SIZE <= |directory| && HandlesSized(st)
    ensures var r := Lookup(st, w, directory, name);
            var file := ViewBinary(directory).id.file;
            var searched := InDirectory(st, w, directory) && name != DOT;
            && (r == Failure(ERR_BADHANDLE) <==> !Guard(st, directory))
            && (r == Failure(ERR_ACCESS) <==> Guard(st, directory) && w.byId(file).NotOpened?)
            && (r == Failure(ERR_NOTDIR) <==> Reached(st, w, directory) && !InDirectory(st, w, directory))
            && (r == Failure(ERR_INVAL) <==> searched && !PlainName(name))
            && (r == Failure(ERR_NO_ENTRY) <==> searched && PlainName(name) && w.child(file, name).Absent?)
            && (r == Failure(ERR_IO) <==>
                  || (Guard(st, directory) && w.byId(file).Unreadable?)
                  || (searched && PlainName(name) && w.child(file, name).Unidentified?))
  {
    hide ViewBinary, Issue, Guard;
  }

  /** CREATE and MKDIR answer with a handle on the very object that was made, on the
      directory's mount, and with nothing else. */
  lemma CreateNames(st: CacheState, w: FileWorld, directory: seq<byte>, how: Option<u32>, name: OctetString)
    requires SIZE <= |directory| && HandlesSized(st)
    ensures var r := Create(st, w, directory, how, name);
            var view := ViewBinary(directory);
            var made := w.create(view.id.file, name);
            && (r.Success? <==>
                  && InDirectory(st, w, directory) && !w.byId(view.id.file).info.guarded
                  && how != Some(Nfs3Args.EXCLUSIVE) && made.Some?)
            && (r.Success? ==>
                  |r.value| == SIZE && ViewBinary(r.value) == MountFilehandle(view.mountId, made.value))
  {
    var view := ViewBinary(directory);
    var made := w.create(view.id.file, name);
    if made.Some? {
      IssueNames(directory, made.value);
    }
    hide ViewBinary, Issue, Guard;
  }

  /** The status of a CREATE or MKDIR that fails. */
  lemma CreateFails(st: CacheState, w: FileWorld, directory: seq<byte>, how: Option<u32>, name: OctetString)
    requires SIZE <= |directory| && HandlesSized(st)
    ensures var r := Create(st, w, directory, how, name);
            var file := ViewBinary(directory).id.file;
            var exclusive := how == Some(Nfs3Args.EXCLUSIVE);
            var guarded := InDirectory(st, w, directory) && w.byId(file).info.guarded;
            && (r == Failure(ERR_BADHANDLE) <==> !Guard(st, directory))
            && (r == Failure(ERR_NOTSUPP) <==> Guard(st, directory) && exclusive)
            && (r == Failure(ERR_ACCESS) <==>
                  Guard(st, directory) && !exclusive && (w.byId(file).NotOpened? || guarded))
            && (r == Failure(ERR_NOTDIR) <==>
                  !exclusive && Reached(st, w, directory) && !InDirectory(st, w, directory))
            && (r == Failure(ERR_IO) <==>
                  && Guard(st, directory) && !exclusive
                  && (w.byId(file).Unreadable?
                      || (InDirectory(st, w, directory) && !guarded && w.create(file, name).None?)))
  {
    hide ViewBinary, Issue, Guard;
  }

  /** A listing sends handles on the listed objects, on the directory's mount and
      volume. */
  lemma ListNames(st: CacheState, w: FileWorld, directory: seq<byte>, e: ReadDirPlus.DirEntry)
    requires SIZE <= |directory| && HandlesSized(st)
    ensures var r := ListEntry(st, w, directory, e);
            var view := ViewBinary(directory);
            && (r.Success? <==> Reached(st, w, directory))
            && (r.Success? ==>
                  && |r.value| == SIZE
                  && ViewBinary(r.value) == MountFilehandle(view.mountId, VolumeFileId(view.id.volume, e.id)))
  {
    var view := ViewBinary(directory);
    ViewOfCreate(MountFilehandle(view.mountId, VolumeFileId(view.id.volume, e.id)));
    hide ViewBinary, CreateInBinary, Guard;
  }

  /** Names of different objects are answered with different handles, and so are
      objects that are made. */
  lemma DifferentObjectsDiffer(st: CacheState, w: FileWorld, directory: seq<byte>, a: OctetString, b: OctetString)
    requires SIZE <= |directory| && HandlesSized(st)
    ensures var x, y := Lookup(st, w, directory, a), Lookup(st, w, directory, b);
            var file := ViewBinary(directory).id.file;
            x.Success? && y.Success? && a != DOT && b != DOT ==>
              (x.value == y.value <==> w.child(file, a).id == w.child(file, b).id)
  {
    LookupNames(st, w, directory, a);
    LookupNames(st, w, directory, b);
    var x, y := Lookup(st, w, directory, a), Lookup(st, w, directory, b);
    hide Lookup, InDirectory, ViewBinary, CreateInBinary;
    if x.Success? && y.Success? && a != DOT && b != DOT {
      CreateOfView(x.value);
      CreateOfView(y.value);
    }
  }

  // ----- which issued handles pass the check -----

  /** A handle issued from an accepted one is accepted exactly when the object lies
      on the directory's volume. */
  lemma IssuedPassesIff(st: CacheState, directory: seq<byte>, id: VolumeFileId)
    requires SIZE <= |directory| && HandlesSized(st) && Guard(st, directory)
    ensures |Issue(directory, id)| == SIZE
    ensures Guard(st, Issue(directory, id)) <==> id.volume == ViewBinary(directory).id.volume
  {
    ViewOfCreate(MountFilehandle(ViewBinary(directory).mountId, id));
    hide ViewBinary, CreateInBinary;
  }

  /** The handles of a listing are always accepted: they take the directory's own
      volume. */
  lemma ListedPasses(st: CacheState, directory: seq<byte>, e: ReadDirPlus.DirEntry)
    requires SIZE <= |directory| && HandlesSized(st) && Guard(st, directory)
    ensures |ReadDirPlus.EntryHandle(ViewBinary(directory), e)| == SIZE
    ensures Guard(st, ReadDirPlus.EntryHandle(ViewBinary(directory), e))
  {
    var view := ViewBinary(directory);
    ViewOfCreate(MountFilehandle(view.mountId, VolumeFileId(view.id.volume, e.id)));
    hide ViewBinary, CreateInBinary;
  }

  /** No procedure leads from one mount to another: every handle issued names the
      directory's mount; and but for the name ".", it has exactly the handle's size. */
  lemma NeverLeavesMount(st: CacheState, w: FileWorld, directory: seq<byte>, how: Option<u32>, name: OctetString,
                         e: ReadDirPlus.DirEntry, r: Result<seq<byte>, u32>)
    requires SIZE <= |directory| && HandlesSized(st)
    requires || r == Lookup(st, w, directory, name)
             || r == Create(st, w, directory, how, name)
             || r == ListEntry(st, w, directory, e)
    ensures r.Success? ==>
              && SIZE <= |r.value| && (r.value != directory ==> |r.value| == SIZE)
              && ViewBinary(r.value).mountId == ViewBinary(directory).mountId
              && ViewBinary(directory).mountId in st.mounts
  {
    if r.Success? && r.value != directory {
      var view := ViewBinary(directory);
      hide ViewBinary, CreateInBinary;
      ViewOfCreate(MountFilehandle(view.mountId, VolumeFileId(view.id.volume, e.id)));
      var child, made := w.child(view.id.file, name), w.create(view.id.file, name);
      if child.Present? {
        ViewOfCreate(MountFilehandle(view.mountId, child.id));
      }
      if made.Some? {
        ViewOfCreate(MountFilehandle(view.mountId, made.value));
      }
    }
  }

  /** A refused handle yields no handle from any procedure. */
  lemma RefusedIssuesNothing(st: CacheState, w: FileWorld, directory: seq<byte>, how: Option<u32>, name: OctetString,
                             e: ReadDirPlus.DirEntry)
    requires SIZE <= |directory| && HandlesSized(st)
    ensures !Guard(st, directory) <==> Lookup(st, w, directory, name) == Failure(ERR_BADHANDLE)
    ensures !Guard(st, directory) <==> Create(st, w, directory, how, name) == Failure(ERR_BADHANDLE)
    ensures !Guard(st, directory) <==> ListEntry(st, w, directory, e) == Failure(ERR_BADHANDLE)
  {}
}
