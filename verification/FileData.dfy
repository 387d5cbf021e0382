/** READ and WRITE on file contents: the file object they go through, and what
    uploads and downloads made of them amount to. */
module FileData {
  import opened Wrappers
  import opened Attributes
  import opened Bytes
  import opened FileHandle
  import opened MountCache
  import opened HandleProcedures
  import opened Nfs3Args
  import opened Nfs3Results
  import opened Nfs3Status

  // ----- contents -----

  /** Cut, or extended by zeros, to n bytes. */
  function Resized(data: seq<byte>, n: nat): (r: seq<byte>)
    ensures |r| == n
  {
    if n <= |data| then data[..n] else data + Zeros(n - |data|)
  }

  /** Bytes put at a position; a gap before it reads as zeros. */
  function Put(data: seq<byte>, pos: nat, bytes: seq<byte>): seq<byte>
  {
    if bytes == [] then data
    else Resized(data, pos) + bytes + (if pos + |bytes| <= |data| then data[pos + |bytes|..] else [])
  }

  /** Up to n bytes from a position; none behind the end. */
  function Section(data: seq<byte>, pos: nat, n: nat): seq<byte>
  {
    if pos >= |data| then [] else if pos + n >= |data| then data[pos..] else data[pos..pos + n]
  }

  lemma PutBytes(data: seq<byte>, pos: nat, bytes: seq<byte>)
    requires bytes != []
    ensures var r := Put(data, pos, bytes);
            && |r| == (if |data| <= pos + |bytes| then pos + |bytes| else |data|)
            && forall k :: 0 <= k < |r| ==>
                 r[k] == if pos <= k < pos + |bytes| then bytes[k - pos] else if k < |data| then data[k] else 0
  {}

  // ----- the file object -----

  /** A file on a volume that holds files of up to `limit` bytes. */
  class DiskFile {
    var data: seq<byte>
    const limit: nat

    constructor (data: seq<byte>, limit: nat)
      requires |data| <= limit < TWO_63
      ensures Valid() && this.data == data && this.limit == limit
    {
      this.data := data;
      this.limit := limit;
    }

    ghost predicate Valid()
      reads this
    {
      |data| <= limit < TWO_63
    }
  }

  /** A file as one call has opened it, with its file pointer. */
  class OpenFile {
    const file: DiskFile
    var pos: nat

    constructor (file: DiskFile)
      ensures this.file == file && pos == 0
    {
      this.file := file;
      pos := 0;
    }

    /** The offset is taken as a signed number; a negative one is refused. */
    method Seek(offset: u64) returns (ok: bool)
      modifies this`pos
      ensures ok == (offset < TWO_63)
      ensures pos == if ok then offset else old(pos)
    {
      var distance: int := if offset < TWO_63 then offset else offset - TWO_64;
      ok := distance >= 0;
      if ok {
        pos := distance;
      }
    }

    /** The file ends where the file pointer is. */
    method Truncate() returns (ok: bool)
      requires file.Valid()
      modifies file
      ensures file.Valid()
      ensures ok == (pos <= file.limit)
      ensures file.data == if ok then Resized(old(file.data), pos) else old(file.data)
    {
      ok := pos <= file.limit;
      if ok {
        file.data := Resized(file.data, pos);
      }
    }

    /** Writes everything or, past the volume's limit, nothing. */
    method Write(binary: seq<byte>) returns (ok: bool)
      requires file.Valid()
      modifies file, this`pos
      ensures file.Valid()
      ensures ok == (binary == [] || old(pos) + |binary| <= file.limit)
      ensures file.data == if ok then Put(old(file.data), old(pos), binary) else old(file.data)
      ensures pos == if ok then old(pos) + |binary| else old(pos)
    {
      if binary == [] {
        return true;
      }
      ok := pos + |binary| <= file.limit;
      if ok {
        file.data := Put(file.data, pos, binary);
        pos := pos + |binary|;
      }
    }

    /** Fills the buffer from the file pointer on, and cuts it to what was there,
        unless the operating system cannot read just now. */
    method Read(buffer: seq<byte>, works: bool) returns (ok: bool, binary: seq<byte>)
      modifies this`pos
      ensures ok == (buffer == [] || works)
      ensures binary == if ok then Section(file.data, old(pos), |buffer|) else []
      ensures pos == old(pos) + |binary|
    {
      if buffer == [] {
        return true, [];
      }
      if !works {
        return false, [];
      }
      binary := Section(file.data, pos, |buffer|);
      pos := pos + |binary|;
      ok := true;
    }
  }

  // ----- the procedures -----

  /** What opening the file by its id yields; what Windows says of a regular file
      comes with the length of its contents. */
  datatype Target = NotOpened | Unreadable | Directory(info: Info) | Regular(info: Info)

  /** What is known of the object once its attributes are read. */
  function InfoOf(st: CacheState, handle: seq<byte>, target: Target, size: nat): Option<Info>
    requires SIZE <= |handle| && HandlesSized(st) && size < TWO_64
  {
    if !Guard(st, handle) then None
    else match target
      case NotOpened => None
      case Unreadable => None
      case Directory(info) => Some(info)
      case Regular(info) => Some(info.(size := size))
  }

  /** The status of the steps before the contents are touched; None for going on. */
  function Refusal(st: CacheState, handle: seq<byte>, target: Target, isDirectory: u32): Option<u32>
    requires SIZE <= |handle| && HandlesSized(st)
  {
    if !Guard(st, handle) then Some(ERR_BADHANDLE)
    else match target
      case NotOpened => Some(ERR_ACCESS)
      case Unreadable => Some(ERR_IO)
      case Directory(_) => Some(isDirectory)
      case Regular(_) => None
  }

  function FileOf(handle: seq<byte>): FileId
    requires SIZE <= |handle|
  {
    ViewBinary(handle).id.file
  }

  datatype ReadReply = ReadReply(count: u32, eof: bool, data: seq<byte>)

  /** What READ answers from the contents. */
  function ReadAt(data: seq<byte>, offset: u64, count: u32): Result<ReadReply, u32>
  {
    if offset >= TWO_63 then Failure(ERR_IO)
    else
      var section := Section(data, offset, count);
      Success(ReadReply(|section|, (count != 0 && section == []) || (offset + |section|) % TWO_64 == |data|, section))
  }

  /** What WRITE makes of the contents; fails with ERR_IO. */
  function WriteAt(data: seq<byte>, limit: nat, offset: u64, bytes: seq<byte>): (seq<byte>, bool)
  {
    if offset >= TWO_63 then (data, false)
    else
      var start := if offset == 0 then [] else data;
      if bytes == [] || offset + |bytes| <= limit then (Put(start, offset, bytes), true) else (start, false)
  }

  /** A reply carries the attributes whenever they were read, whatever comes of the
      call. */
  datatype ReadResult = ReadResult(attributes: Option<FileAttr>, outcome: Result<ReadReply, u32>)

  method Read(st: CacheState, target: Target, file: DiskFile, args: ReadArgs, works: bool) returns (result: ReadResult)
    requires SIZE <= |args.filehandle| && HandlesSized(st) && file.Valid()
    ensures var info := InfoOf(st, args.filehandle, target, |file.data|);
            result.attributes == if info.Some? then Some(ObjectAttr(info.value, FileOf(args.filehandle))) else None
    ensures var refusal := Refusal(st, args.filehandle, target, ERR_ISDIR);
            result.outcome == if refusal.Some? then Failure(refusal.value)
                              else if args.count != 0 && !works then Failure(ERR_IO)
                              else ReadAt(file.data, args.offset, args.count)
  {
    if !Guard(st, args.filehandle) {
      return ReadResult(None, Failure(ERR_BADHANDLE));
    }
    var id := FileOf(args.filehandle);
    match target
    case NotOpened => return ReadResult(None, Failure(ERR_ACCESS));
    case Unreadable => return ReadResult(None, Failure(ERR_IO));
    case Directory(info) => return ReadResult(Some(ObjectAttr(info, id)), Failure(ERR_ISDIR));
    case Regular(info) =>
      var attributes := Some(ObjectAttr(info.(size := |file.data|), id));
      var open := new OpenFile(file);
      var success := open.Seek(args.offset);
      if !success {
        return ReadResult(attributes, Failure(ERR_IO));
      }
      var data;
      success, data := open.Read(Zeros(args.count), works);
      if !success {
        return ReadResult(attributes, Failure(ERR_IO));
      }
      var eof := (args.count != 0 && data == []) || (args.offset + |data|) % TWO_64 == |file.data|;
      return ReadResult(attributes, Success(ReadReply(|data|, eof, data)));
  }

  /** How the data is kept when WRITE returns. */
  const UNSTABLE: u32 := 0
  const FILE_SYNC: u32 := 2

  datatype WriteReply = WriteReply(count: u32, committed: u32, verifier: seq<byte>)

  datatype WriteResult = WriteResult(before: Option<WccAttr>, after: Option<FileAttr>, outcome: Result<WriteReply, u32>)

  /** The answer is the count the client named; it claims the data is on disk unless
      the client asked for unstable storage; `verifier` is the server's own. The
      attributes before are those of the old contents; after success those of the
      new ones follow, if `afterwards` they can be read. */
  method Write(st: CacheState, target: Target, file: DiskFile, args: WriteArgs, verifier: seq<byte>,
               afterwards: Option<Info>) returns (result: WriteResult)
    requires SIZE <= |args.filehandle| && HandlesSized(st) && file.Valid()
    modifies file
    ensures file.Valid()
    ensures var info := InfoOf(st, args.filehandle, target, |old(file.data)|);
            result.before == if info.Some? then Some(WccOf(info.value)) else None
    ensures result.after == if result.outcome.Success? && afterwards.Some?
                            then Some(ObjectAttr(afterwards.value.(size := |file.data|), FileOf(args.filehandle)))
                            else None
    ensures var refusal := Refusal(st, args.filehandle, target, ERR_INVAL);
            var (data, ok) := WriteAt(old(file.data), file.limit, args.offset, args.data);
            && file.data == (if refusal.Some? then old(file.data) else data)
            && (refusal.Some? ==> result.outcome == Failure(refusal.value))
            && (refusal.None? && !ok ==> result.outcome == Failure(ERR_IO))
            && (refusal.None? && ok ==>
                  && result.outcome.Success?
                  && result.outcome.value.count == args.count && result.outcome.value.verifier == verifier
                  && (result.outcome.value.committed == UNSTABLE <==> args.stable == UNSTABLE)
                  && result.outcome.value.committed in {UNSTABLE, FILE_SYNC})
  {
    if !Guard(st, args.filehandle) {
      return WriteResult(None, None, Failure(ERR_BADHANDLE));
    }
    match target
    case NotOpened => return WriteResult(None, None, Failure(ERR_ACCESS));
    case Unreadable => return WriteResult(None, None, Failure(ERR_IO));
    case Directory(info) => return WriteResult(Some(WccOf(info)), None, Failure(ERR_INVAL));
    case Regular(info) =>
      var before := Some(WccOf(info.(size := |file.data|)));
      var open := new OpenFile(file);
      var success: bool;
      if args.offset == 0 {
        success := open.Truncate();
      } else {
        success := open.Seek(args.offset);
      }
      if !success {
        return WriteResult(before, None, Failure(ERR_IO));
      }
      success := open.Write(args.data);
      if !success {
        return WriteResult(before, None, Failure(ERR_IO));
      }
      var after: Option<FileAttr> := None;
      if afterwards.Some? {
        after := Some(ObjectAttr(afterwards.value.(size := |file.data|), FileOf(args.filehandle)));
      }
      var committed := if args.stable != UNSTABLE then FILE_SYNC else UNSTABLE;
      return WriteResult(before, after, Success(WriteReply(args.count, committed, verifier)));
  }

  // ----- one call -----

  /** READ is refused exactly for offsets that are negative as signed numbers; else it
      returns as many bytes as were asked for or are there, each from its place. */
  lemma ReadMeaning(data: seq<byte>, offset: u64, count: u32)
    ensures ReadAt(data, offset, count) == Failure(ERR_IO) <==> offset >= TWO_63
    ensures offset < TWO_63 ==>
              var r := ReadAt(data, offset, count);
              var there := if offset < |data| then |data| - offset else 0;
              && r.Success? && r.value.count == |r.value.data|
              && |r.value.data| == (if count < there then count else there)
              && forall i :: 0 <= i < |r.value.data| ==> r.value.data[i] == data[offset + i]
  {}

  /** WRITE fails exactly for such offsets, and for bytes that go past the limit. */
  lemma WriteFailsIff(data: seq<byte>, limit: nat, offset: u64, bytes: seq<byte>)
    ensures !WriteAt(data, limit, offset, bytes).1 <==>
            offset >= TWO_63 || (bytes != [] && offset + |bytes| > limit)
  {}

  /** A successful WRITE, byte by byte: what was sent at its place; elsewhere the old
      bytes, which are none if it was at offset 0, and zeros in a gap. */
  lemma WriteMeaning(data: seq<byte>, limit: nat, offset: u64, bytes: seq<byte>)
    requires WriteAt(data, limit, offset, bytes).1
    ensures var r := WriteAt(data, limit, offset, bytes).0;
            var kept := if offset == 0 then 0 else |data|;
            && |r| == (if bytes != [] && offset + |bytes| > kept then offset + |bytes| else kept)
            && forall k :: 0 <= k < |r| ==>
                 r[k] == if offset <= k < offset + |bytes| then bytes[k - offset] else if k < kept then data[k] else 0
  {
    if bytes != [] {
      PutBytes(if offset == 0 then [] else data, offset, bytes);
      hide Put;
    }
  }

  /** The status with which READ and WRITE refuse a handle, and what they then know. */
  lemma RefusalMeaning(st: CacheState, handle: seq<byte>, target: Target, isDirectory: u32, size: nat)
    requires SIZE <= |handle| && HandlesSized(st) && size < TWO_64
    requires isDirectory == ERR_ISDIR || isDirectory == ERR_INVAL
    ensures var r := Refusal(st, handle, target, isDirectory);
            && (r == Some(ERR_BADHANDLE) <==> !Guard(st, handle))
            && (r == Some(ERR_ACCESS) <==> Guard(st, handle) && target.NotOpened?)
            && (r == Some(ERR_IO) <==> Guard(st, handle) && target.Unreadable?)
            && (r == Some(isDirectory) <==> Guard(st, handle) && target.Directory?)
            && (r == None <==> Guard(st, handle) && target.Regular?)
    ensures var i := InfoOf(st, handle, target, size);
            && (i.Some? <==> Guard(st, handle) && (target.Directory? || target.Regular?))
            && (i.Some? ==> i.value.flags == target.info.flags && i.value.times == target.info.times
                            && i.value.links == target.info.links && i.value.allocation == target.info.allocation
                            && i.value.size == if target.Regular? then size else target.info.size)
  {
    hide Guard;
  }

  /** End of file is reported exactly when the read reaches the end; a read of
      nothing reports it exactly at the end. */
  lemma EofIffEnd(data: seq<byte>, offset: u64, count: u32)
    requires |data| < TWO_63 && offset < TWO_63
    ensures var r := ReadAt(data, offset, count).value;
            r.eof <==> if count == 0 then offset == |data| else offset + count >= |data|
  {}

  /** A successful WRITE leaves what section 3.3.7 of RFC 1813 asks for exactly when
      it is not at offset 0 or covers the whole old file. */
  lemma WriteIsRfcIff(data: seq<byte>, limit: nat, offset: u64, bytes: seq<byte>)
    requires WriteAt(data, limit, offset, bytes).1
    ensures WriteAt(data, limit, offset, bytes).0 == Put(data, offset, bytes) <==> offset != 0 || |data| <= |bytes|
  {
    if offset == 0 && bytes != [] {
      PutBytes(data, 0, bytes);
      PutBytes([], 0, bytes);
    }
  }

  /** A failing WRITE changes the file exactly when it was at offset 0: it has then
      emptied it. */
  lemma FailedWriteChangesIff(data: seq<byte>, limit: nat, offset: u64, bytes: seq<byte>)
    requires !WriteAt(data, limit, offset, bytes).1
    ensures WriteAt(data, limit, offset, bytes).0 != data <==> offset == 0 && data != []
  {}

  /** What was written is read back, by one READ of its size or by any two that
      meet inside it. */
  lemma ReadBack(data: seq<byte>, limit: nat, offset: u64, bytes: seq<byte>, split: u32)
    requires WriteAt(data, limit, offset, bytes).1 && split <= |bytes| < TWO_32 && offset + |bytes| < TWO_63
    ensures var written := WriteAt(data, limit, offset, bytes).0;
            && ReadAt(written, offset, |bytes|).Success?
            && ReadAt(written, offset, |bytes|).value.data == bytes
            && ReadAt(written, offset, split).value.data
               + ReadAt(written, offset + split, |bytes| - split).value.data == bytes
  {
    var written := WriteAt(data, limit, offset, bytes).0;
    if bytes != [] {
      WrittenAt(data, limit, offset, bytes);
      hide WriteAt;
      SectionInside(written, offset, |bytes|);
      SectionInside(written, offset, split);
      SectionInside(written, offset + split, |bytes| - split);
      SplitSlice(written, offset, split, |bytes|);
      hide Section;
    }
  }

  lemma WrittenAt(data: seq<byte>, limit: nat, offset: u64, bytes: seq<byte>)
    requires WriteAt(data, limit, offset, bytes).1 && bytes != []
    ensures var written := WriteAt(data, limit, offset, bytes).0;
            offset + |bytes| <= |written| && written[offset..offset + |bytes|] == bytes
  {
    PutBytes(if offset == 0 then [] else data, offset, bytes);
    hide Put;
  }

  lemma SplitSlice(s: seq<byte>, at: nat, split: nat, n: nat)
    requires split <= n && at + n <= |s|
    ensures s[at..at + split] + s[at + split..at + split + (n - split)] == s[at..at + n]
  {}

  lemma SectionInside(data: seq<byte>, pos: nat, n: nat)
    requires pos + n <= |data|
    ensures Section(data, pos, n) == data[pos..pos + n]
  {}

  // ----- uploads -----

  /** A client's WRITE of bytes lo to hi of what it uploads. */
  datatype Piece = Piece(lo: nat, hi: nat)

  ghost predicate PieceOf(p: Piece, full: seq<byte>)
  {
    p.lo < p.hi <= |full|
  }

  ghost predicate PiecesOf(ps: seq<Piece>, full: seq<byte>)
  {
    forall i :: 0 <= i < |ps| ==> PieceOf(ps[i], full)
  }

  /** The contents after WRITEs of pieces of full, and whether all succeeded. */
  function Upload(data: seq<byte>, limit: nat, full: seq<byte>, ps: seq<Piece>): (seq<byte>, bool)
    requires |full| < TWO_63
    requires forall i :: 0 <= i < |ps| ==> ps[i].lo < ps[i].hi <= |full|
    decreases ps
  {
    if ps == [] then (data, true)
    else
      var (first, ok) := WriteAt(data, limit, ps[0].lo, full[ps[0].lo..ps[0].hi]);
      if !ok then (first, false) else Upload(first, limit, full, ps[1..])
  }

  ghost predicate Covered(ps: seq<Piece>, k: nat)
  {
    exists i :: 0 <= i < |ps| && ps[i].lo <= k < ps[i].hi
  }

  /** Where the furthest piece ends. */
  function End(ps: seq<Piece>): (r: nat)
    decreases ps
  {
    if ps == [] then 0
    else if ps[0].hi > End(ps[1..]) then ps[0].hi else End(ps[1..])
  }

  lemma CoveredHead(ps: seq<Piece>, k: nat)
    requires ps != []
    ensures Covered(ps, k) <==> ps[0].lo <= k < ps[0].hi || Covered(ps[1..], k)
  {
    if Covered(ps, k) {
      var i :| 0 <= i < |ps| && ps[i].lo <= k < ps[i].hi;
      if i > 0 {
        assert ps[1..][i - 1] == ps[i];
      }
    }
    if Covered(ps[1..], k) {
      var i :| 0 <= i < |ps| - 1 && ps[1..][i].lo <= k < ps[1..][i].hi;
      assert ps[i + 1] == ps[1..][i];
    }
  }

  /** Pieces behind the start, in any order, overlapping or repeated: each covered
      byte is the uploaded one, any other keeps what it was or is zero. */
  lemma {:induction false} UploadBytes(data: seq<byte>, limit: nat, full: seq<byte>, ps: seq<Piece>)
    requires |full| <= limit && |full| < TWO_63 && PiecesOf(ps, full)
    requires forall i :: 0 <= i < |ps| ==> ps[i].lo > 0
    ensures var (r, ok) := Upload(data, limit, full, ps);
            && ok
            && |r| == (if |data| > End(ps) then |data| else End(ps))
            && forall k :: 0 <= k < |r| ==>
                 r[k] == if Covered(ps, k) then full[k] else if k < |data| then data[k] else 0
    decreases ps
  {
    if ps == [] {
    } else {
      var p, rest := ps[0], ps[1..];
      assert PieceOf(p, full);
      OnePiece(data, limit, full, p);
      var first := WriteAt(data, limit, p.lo, full[p.lo..p.hi]).0;
      hide WriteAt;
      RestPieces(ps, full);
      UploadBytes(first, limit, full, rest);
      var r := Upload(first, limit, full, rest).0;
      assert Upload(data, limit, full, ps) == (r, true);
      assert End(ps) == if p.hi > End(rest) then p.hi else End(rest);
      hide Upload, Covered, End;
      forall k | 0 <= k < |r|
        ensures r[k] == if Covered(ps, k) then full[k] else if k < |data| then data[k] else 0
      {
        CoveredHead(ps, k);
      }
    }
  }

  lemma OnePiece(data: seq<byte>, limit: nat, full: seq<byte>, p: Piece)
    requires PieceOf(p, full) && p.lo > 0 && |full| <= limit && |full| < TWO_63
    ensures var (r, ok) := WriteAt(data, limit, p.lo, full[p.lo..p.hi]);
            && ok
            && |r| == (if |data| > p.hi then |data| else p.hi)
            && forall k :: 0 <= k < |r| ==>
                 r[k] == if p.lo <= k < p.hi then full[k] else if k < |data| then data[k] else 0
  {
    PutBytes(data, p.lo, full[p.lo..p.hi]);
    hide Put;
  }

  lemma RestPieces(ps: seq<Piece>, full: seq<byte>)
    requires ps != [] && PiecesOf(ps, full)
    ensures PiecesOf(ps[1..], full) && forall i :: 0 <= i < |ps| - 1 ==> ps[1..][i] == ps[i + 1]
  {
    forall i | 0 <= i < |ps| - 1 ensures PieceOf(ps[1..][i], full) {
      assert PieceOf(ps[i + 1], full);
    }
  }

  /** A WRITE at offset 0 makes everything before it irrelevant. */
  lemma {:induction false} UploadForgets(
    data: seq<byte>, limit: nat, full: seq<byte>, before: seq<Piece>, ps: seq<Piece>)
    requires |full| <= limit && |full| < TWO_63 && PiecesOf(before, full) && PiecesOf(ps, full)
    requires ps != [] && ps[0].lo == 0
    ensures PiecesOf(before + ps, full)
    ensures Upload(data, limit, full, before + ps) == Upload([], limit, full, ps)
    decreases before
  {
    assert forall i :: 0 <= i < |before + ps| ==>
      (before + ps)[i] == if i < |before| then before[i] else ps[i - |before|];
    assert PieceOf(ps[0], full);
    hide Put;
    if before == [] {
      assert before + ps == ps;
    } else {
      var p := before[0];
      assert PieceOf(p, full);
      assert before[1..] + ps == (before + ps)[1..];
      assert forall i :: 0 <= i < |before| - 1 ==> before[1..][i] == before[i + 1];
      UploadForgets(WriteAt(data, limit, p.lo, full[p.lo..p.hi]).0, limit, full, before[1..], ps);
    }
  }

  /** An upload succeeds exactly when, from its last WRITE at offset 0 on, its
      pieces reach the end and leave out only zero bytes; the order of the pieces
      behind that WRITE, repetitions, and what the file held do not matter. */
  lemma UploadIff(data: seq<byte>, limit: nat, full: seq<byte>, before: seq<Piece>, ps: seq<Piece>)
    requires |full| <= limit && |full| < TWO_63 && PiecesOf(before, full) && PiecesOf(ps, full)
    requires ps != [] && ps[0].lo == 0 && forall i :: 1 <= i < |ps| ==> ps[i].lo > 0
    ensures PiecesOf(before + ps, full)
    ensures var (r, ok) := Upload(data, limit, full, before + ps);
            ok && (r == full <==> End(ps) == |full| && forall k :: 0 <= k < |full| ==> Covered(ps, k) || full[k] == 0)
  {
    UploadForgets(data, limit, full, before, ps);
    StartedUpload(limit, full, ps);
    EndInside(ps, full);
    var r := Upload([], limit, full, ps).0;
    hide Upload, End, Covered;
    if r == full {
      forall k | 0 <= k < |full| && !Covered(ps, k) ensures full[k] == 0 {
        assert r[k] == 0;
      }
    }
  }

  lemma StartedUpload(limit: nat, full: seq<byte>, ps: seq<Piece>)
    requires |full| <= limit && |full| < TWO_63 && PiecesOf(ps, full)
    requires ps != [] && ps[0].lo == 0 && forall i :: 1 <= i < |ps| ==> ps[i].lo > 0
    ensures var (r, ok) := Upload([], limit, full, ps);
            ok && |r| == End(ps) <= |full| && forall k :: 0 <= k < |r| ==> r[k] == if Covered(ps, k) then full[k] else 0
  {
    assert PieceOf(ps[0], full);
    var first := full[..ps[0].hi];
    assert full[ps[0].lo..ps[0].hi] == first;
    PutBytes([], 0, first);
    assert Put([], 0, first) == first;
    assert WriteAt([], limit, 0, first) == (first, true);
    hide WriteAt, Put;
    RestPieces(ps, full);
    UploadBytes(first, limit, full, ps[1..]);
    EndInside(ps, full);
    var r := Upload([], limit, full, ps).0;
    forall k | 0 <= k < |r| ensures r[k] == if Covered(ps, k) then full[k] else 0 {
      CoveredHead(ps, k);
    }
  }

  lemma {:induction false} EndInside(ps: seq<Piece>, full: seq<byte>)
    requires PiecesOf(ps, full)
    ensures End(ps) <= |full|
    decreases ps
  {
    if ps == [] {
    } else {
      assert PieceOf(ps[0], full);
      RestPieces(ps, full);
      EndInside(ps[1..], full);
    }
  }

  /** Pieces that follow one another from a position to the end of full. */
  ghost predicate Consecutive(ps: seq<Piece>, start: nat, full: seq<byte>)
    decreases ps
  {
    if ps == [] then start == |full|
    else ps[0].lo == start < ps[0].hi <= |full| && Consecutive(ps[1..], ps[0].hi, full)
  }

  lemma {:induction false} ConsecutiveCovers(ps: seq<Piece>, start: nat, full: seq<byte>)
    requires Consecutive(ps, start, full)
    ensures PiecesOf(ps, full) && (ps != [] ==> End(ps) == |full|)
    ensures forall i :: 0 <= i < |ps| ==> start <= ps[i].lo && (i > 0 ==> start < ps[i].lo)
    ensures forall k :: start <= k < |full| ==> Covered(ps, k)
    decreases ps
  {
    if ps == [] {
    } else {
      ConsecutiveCovers(ps[1..], ps[0].hi, full);
      forall i | 0 <= i < |ps| ensures PieceOf(ps[i], full) && start <= ps[i].lo && (i > 0 ==> start < ps[i].lo) {
        if i > 0 {
          assert ps[1..][i - 1] == ps[i] && PieceOf(ps[1..][i - 1], full);
        }
      }
      forall k | start <= k < |full| ensures Covered(ps, k) {
        CoveredHead(ps, k);
      }
    }
  }

  /** Contiguous WRITEs in order, of any sizes, over any old contents. */
  lemma UploadInOrder(data: seq<byte>, limit: nat, full: seq<byte>, ps: seq<Piece>)
    requires |full| <= limit && |full| < TWO_63 && ps != [] && Consecutive(ps, 0, full)
    ensures PiecesOf(ps, full)
    ensures Upload(data, limit, full, ps) == (full, true)
  {
    ConsecutiveCovers(ps, 0, full);
    assert [] + ps == ps;
    UploadIff(data, limit, full, [], ps);
  }

  // ----- downloads -----

  type PositiveCount = x: u32 | x > 0 witness 1

  /** What READ number i of a series answers at an offset inside the file. */
  function ReplyAt(data: seq<byte>, counts: nat -> PositiveCount, i: nat, offset: nat): (r: ReadReply)
    requires offset <= |data| < TWO_63
    ensures offset + |r.data| <= |data| && (!r.eof ==> r.data != [])
  {
    ReadsAhead(data, offset, counts(i));
    ReadAt(data, offset, counts(i)).value
  }

  lemma ReadsAhead(data: seq<byte>, offset: nat, count: PositiveCount)
    requires offset <= |data| < TWO_63
    ensures ReadAt(data, offset, count).Success?
    ensures var reply := ReadAt(data, offset, count).value;
            && offset + |reply.data| <= |data| && reply.count == |reply.data|
            && (reply.eof <==> |reply.data| == |data| - offset)
            && (!reply.eof ==> reply.data != [])
  {}

  /** READs from an offset on, each with its own count, until end of file. */
  function Download(data: seq<byte>, counts: nat -> PositiveCount, i: nat, offset: nat): (r: seq<ReadReply>)
    requires offset <= |data| < TWO_63
    ensures r != []
    decreases |data| - offset
  {
    var reply := ReplyAt(data, counts, i, offset);
    if reply.eof then [reply] else [reply] + Download(data, counts, i + 1, offset + |reply.data|)
  }

  function Joined(replies: seq<ReadReply>): seq<byte>
  {
    if replies == [] then [] else replies[0].data + Joined(replies[1..])
  }

  lemma JoinedOne(reply: ReadReply)
    ensures Joined([reply]) == reply.data
  {
    assert [reply][1..] == [] && Joined([reply]) == reply.data + Joined([]);
  }

  lemma JoinedHead(reply: ReadReply, rest: seq<ReadReply>)
    ensures Joined([reply] + rest) == reply.data + Joined(rest)
  {
    assert ([reply] + rest)[1..] == rest;
  }

  function Rest(data: seq<byte>, offset: nat): seq<byte>
    requires offset <= |data|
  {
    data[offset..]
  }

  lemma ReplyIsRest(data: seq<byte>, counts: nat -> PositiveCount, i: nat, offset: nat)
    requires offset <= |data| < TWO_63
    ensures var reply := ReplyAt(data, counts, i, offset);
            && (reply.eof ==> reply.data == Rest(data, offset))
            && (!reply.eof ==> reply.data + Rest(data, offset + |reply.data|) == Rest(data, offset))
  {}

  lemma {:induction false} DownloadIsRest(data: seq<byte>, counts: nat -> PositiveCount, i: nat, offset: nat)
    requires offset <= |data| < TWO_63
    ensures Joined(Download(data, counts, i, offset)) == Rest(data, offset)
    decreases |data| - offset
  {
    hide ReplyAt, Joined, Rest;
    ReplyIsRest(data, counts, i, offset);
    var reply := ReplyAt(data, counts, i, offset);
    if reply.eof {
      JoinedOne(reply);
    } else {
      var rest := Download(data, counts, i + 1, offset + |reply.data|);
      assert Download(data, counts, i, offset) == [reply] + rest;
      hide Download;
      DownloadIsRest(data, counts, i + 1, offset + |reply.data|);
      JoinedHead(reply, rest);
    }
  }

  /** Any positive counts: the READs return the rest of the file. */
  lemma DownloadReturns(data: seq<byte>, counts: nat -> PositiveCount, i: nat, offset: nat)
    requires offset <= |data| < TWO_63
    ensures Joined(Download(data, counts, i, offset)) == data[offset..]
  {
    hide Download, Joined;
    DownloadIsRest(data, counts, i, offset);
  }

  /** The last reply, and no other, reports the end; every count is that of the data
      with it. */
  ghost predicate EndsWell(rs: seq<ReadReply>)
  {
    forall j :: 0 <= j < |rs| ==> (rs[j].eof <==> j == |rs| - 1) && rs[j].count == |rs[j].data|
  }

  lemma EndsWellMore(reply: ReadReply, rest: seq<ReadReply>)
    requires rest != [] && EndsWell(rest) && !reply.eof && reply.count == |reply.data|
    ensures EndsWell([reply] + rest)
  {
    var rs := [reply] + rest;
    forall j | 0 <= j < |rs| ensures (rs[j].eof <==> j == |rs| - 1) && rs[j].count == |rs[j].data| {
      if j > 0 {
        assert rs[j] == rest[j - 1];
      }
    }
  }

  lemma ReplyCounts(data: seq<byte>, counts: nat -> PositiveCount, i: nat, offset: nat)
    requires offset <= |data| < TWO_63
    ensures var reply := ReplyAt(data, counts, i, offset);
            reply.count == |reply.data| && (reply.eof <==> offset + |reply.data| == |data|)
  {}

  /** There is at most one READ for each byte left, and at least one, and they end well. */
  lemma {:induction false} DownloadEnds(data: seq<byte>, counts: nat -> PositiveCount, i: nat, offset: nat)
    requires offset <= |data| < TWO_63
    ensures EndsWell(Download(data, counts, i, offset))
    ensures |Download(data, counts, i, offset)| <= (if offset < |data| then |data| - offset else 1)
    decreases |data| - offset
  {
    hide ReplyAt;
    ReplyCounts(data, counts, i, offset);
    var reply := ReplyAt(data, counts, i, offset);
    if reply.eof {
    } else {
      var rest := Download(data, counts, i + 1, offset + |reply.data|);
      assert Download(data, counts, i, offset) == [reply] + rest;
      hide Download, EndsWell;
      DownloadEnds(data, counts, i + 1, offset + |reply.data|);
      EndsWellMore(reply, rest);
    }
  }
}
