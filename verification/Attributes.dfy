/** The attributes the file protocol reports for an object, from what Windows says
    of it. */
module Attributes {
  import opened Bytes
  import opened FileHandle
  import opened Nfs3Results
  import opened WinTime

  datatype Flags = Flags(directory: bool, reparsePoint: bool, system: bool, readOnly: bool)

  datatype Times = Times(lastAccess: LargeInteger, lastWrite: LargeInteger, change: LargeInteger)

  /** The basic and standard information of an opened object. */
  datatype Info = Info(flags: Flags, links: u32, size: u64, allocation: u64, times: Times)

  /** wcc_attr: what a client compares to see whether its cache still holds. */
  datatype WccAttr = WccAttr(size: u64, mtime: UnixTime, ctime: UnixTime)

  const SYMLINK: u32 := 5
  const DIRECTORY: u32 := 2
  const REGULAR_FILE: u32 := 1

  /** The file system number of every object that is reported by itself. */
  const FSID: u64 := 7

  function FileType(f: Flags): u32
  {
    if f.reparsePoint then SYMLINK else if f.directory then DIRECTORY else REGULAR_FILE
  }

  /** rwxrwxrwx, without the write bits for read-only objects, nothing for system ones. */
  function Mode(f: Flags): u32
  {
    if f.system then 0 else if f.readOnly then 0x16D else 0x1FF
  }

  /** The first eight bytes of the 16-byte file id. */
  function ShortId(id: FileId): u64
  {
    LeNumBound(id[..8]);
    PowValues();
    LeNum(id[..8])
  }

  function AttrWith(f: Flags, links: u32, size: u64, allocation: u64, fsid: u64, id: FileId, times: Times): FileAttr
  {
    FileAttr(FileType(f), Mode(f), links, 0, 0, size, allocation, 0, 0, fsid, ShortId(id),
             LargeIntegerToUnix(times.lastAccess),
             LargeIntegerToUnix(times.lastWrite),
             LargeIntegerToUnix(times.change))
  }

  function ObjectAttr(i: Info, id: FileId): FileAttr
  {
    AttrWith(i.flags, i.links, i.size, i.allocation, FSID, id, i.times)
  }

  function WccOf(i: Info): WccAttr
  {
    WccAttr(i.size, LargeIntegerToUnix(i.times.lastWrite), LargeIntegerToUnix(i.times.change))
  }

  // ----- what they say -----

  /** Read, write and execute for everyone. */
  const EVERYTHING: u32 := 0x1FF
  const WRITING: u32 := 0x092

  /** Type and permissions: a reparse point is a link whatever else it is; a system
      object permits nothing, a read-only one no writing. */
  ghost predicate TypeAndModeOf(a: FileAttr, f: Flags)
  {
    && (a.fileType == SYMLINK <==> f.reparsePoint)
    && (a.fileType == DIRECTORY <==> f.directory && !f.reparsePoint)
    && (a.fileType == REGULAR_FILE <==> !f.directory && !f.reparsePoint)
    && a.mode == (if f.system then 0 else EVERYTHING - if f.readOnly then WRITING else 0)
  }

  /** The unix time names the very instant of the file time, from 1970 on. */
  ghost predicate SameInstant(t: UnixTime, filetime: LargeInteger)
  {
    FILETIME_JAN_1970 <= filetime ==>
      t.seconds * 1_000_000_000 + t.nanoseconds == Instant(filetime) && t.nanoseconds < 1_000_000_000
  }

  /** The three times, each of them in its place. */
  ghost predicate TimesOf(a: FileAttr, t: Times)
  {
    && SameInstant(a.atime, t.lastAccess) && a.atime == LargeIntegerToUnix(t.lastAccess)
    && SameInstant(a.mtime, t.lastWrite) && a.mtime == LargeIntegerToUnix(t.lastWrite)
    && SameInstant(a.ctime, t.change) && a.ctime == LargeIntegerToUnix(t.change)
  }

  lemma ConvertsInstant(filetime: LargeInteger)
    ensures SameInstant(LargeIntegerToUnix(filetime), filetime)
  {
    if FILETIME_JAN_1970 <= filetime {
      ExactFrom1970(filetime);
    }
  }

  lemma AttrFieldByField(
    f: Flags, links: u32, size: u64, allocation: u64, fsid: u64, id: FileId, times: Times)
    ensures var a := AttrWith(f, links, size, allocation, fsid, id, times);
            && TypeAndModeOf(a, f) && TimesOf(a, times)
            && a.nlink == links && a.uid == 0 && a.gid == 0 && a.size == size && a.used == allocation
            && a.rdev1 == 0 && a.rdev2 == 0 && a.fsid == fsid && Le(a.fileid, 8) == id[..8]
  {
    ConvertsInstant(times.lastAccess);
    ConvertsInstant(times.lastWrite);
    ConvertsInstant(times.change);
    LeOfLeNum(id[..8]);
    hide LargeIntegerToUnix, SameInstant, Le;
  }

  /** The attributes of an object that is reported by itself, field by field. */
  lemma ObjectAttrMeaning(i: Info, id: FileId)
    ensures var a := ObjectAttr(i, id);
            && TypeAndModeOf(a, i.flags) && TimesOf(a, i.times)
            && a.nlink == i.links && a.uid == 0 && a.gid == 0 && a.size == i.size && a.used == i.allocation
            && a.fsid == 7 && Le(a.fileid, 8) == id[..8]
  {
    AttrFieldByField(i.flags, i.links, i.size, i.allocation, FSID, id, i.times);
  }

  /** What the attributes before a change say: the size, and the last write and
      change. They are the ones the full attributes have. */
  lemma WccMeaning(i: Info, id: FileId)
    ensures var w, a := WccOf(i), ObjectAttr(i, id);
            && w.size == i.size && w.size == a.size && w.mtime == a.mtime && w.ctime == a.ctime
            && SameInstant(w.mtime, i.times.lastWrite) && SameInstant(w.ctime, i.times.change)
  {
    ConvertsInstant(i.times.lastWrite);
    ConvertsInstant(i.times.change);
    hide LargeIntegerToUnix, SameInstant, FileType, Mode, ShortId;
  }
}
