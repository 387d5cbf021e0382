/** The argument readers of the NFS program, each against the encoding that
    RFC 1813 gives for its arguments. A reader finds its fields by adding up the
    sizes of the fields before them. */
module Nfs3Args {
  import opened Bytes
  import opened BinaryReader
  import opened Xdr

  const FILEHANDLE_SIZE: nat := 64
  const VERIFIER_SIZE: nat := 8

  const EXCLUSIVE: u32 := 2
  const UNCHECKED: u32 := 0

  // ----- argument values -----

  datatype DirOpArgs = DirOpArgs(directory: seq<byte>, name: OctetString)
  datatype ReadArgs = ReadArgs(filehandle: seq<byte>, offset: u64, count: u32)
  datatype WriteArgs = WriteArgs(filehandle: seq<byte>, offset: u64, count: u32, stable: u32, data: seq<byte>)
  datatype CommitArgs = CommitArgs(file: seq<byte>, offset: u64, count: u32)
  datatype RenameArgs = RenameArgs(from: DirOpArgs, to: DirOpArgs)
  datatype ReadDirPlusArgs = ReadDirPlusArgs(
    directory: seq<byte>, cookie: u64, verifier: seq<byte>, dircount: u32, maxcount: u32)

  /** An opaque is encodable when its length fits the length word. */
  predicate Fits(data: seq<byte>)
  {
    |data| < TWO_32
  }

  predicate DirOpFits(a: DirOpArgs)
  {
    Fits(a.directory) && Fits(a.name)
  }

  // ----- the standard's encodings -----

  function EncDirOp(a: DirOpArgs): seq<byte>
  {
    EncOpaque(a.directory) + EncOpaque(a.name)
  }

  function EncRead(a: ReadArgs): seq<byte>
  {
    EncOpaque(a.filehandle) + (Be(a.offset, 8) + Be(a.count, 4))
  }

  function EncWrite(a: WriteArgs): seq<byte>
  {
    EncOpaque(a.filehandle) + (Be(a.offset, 8) + (Be(a.count, 4) + (Be(a.stable, 4) + EncOpaque(a.data))))
  }

  function EncCommit(a: CommitArgs): seq<byte>
  {
    EncOpaque(a.file) + (Be(a.offset, 8) + Be(a.count, 4))
  }

  function EncRename(a: RenameArgs): seq<byte>
  {
    EncDirOp(a.from) + EncDirOp(a.to)
  }

  function EncReadDirPlus(a: ReadDirPlusArgs): seq<byte>
  {
    EncOpaque(a.directory) + (Be(a.cookie, 8) + (a.verifier + (Be(a.dircount, 4) + Be(a.maxcount, 4))))
  }

  // ----- the program's readers -----

  function FilehandleReader(v: View): Opaque
  {
    OpaqueReader(v, 0, FILEHANDLE_SIZE)
  }

  datatype DirOpArgsReader = DirOpArgsReader(dir: Opaque, name: Opaque) {
    static function On(v: View): DirOpArgsReader
    {
      var dir := FilehandleReader(v);
      DirOpArgsReader(dir, OpaqueReader(v, dir.ReadSize(), NO_LIMIT))
    }

    function Size(): nat
    {
      dir.ReadSize() + name.ReadSize()
    }

    predicate Valid()
    {
      dir.Valid() && name.Valid()
    }

    function Read(): DirOpArgs
    {
      DirOpArgs(dir.ToBinary(), name.ToBinary())
    }
  }

  datatype ReadArgsReader = ReadArgsReader(reader: View, file: Opaque) {
    static function On(v: View): ReadArgsReader
    {
      ReadArgsReader(v, FilehandleReader(v))
    }

    function Size(): nat
    {
      file.ReadSize() + 8 + 4
    }

    predicate Valid()
    {
      file.Valid() && reader.HasSize(Size())
    }

    function Read(): ReadArgs
    {
      ReadArgs(file.ToBinary(), reader.Get64(file.ReadSize()), reader.Get32(8 + file.ReadSize()))
    }
  }

  datatype WriteArgsReader = WriteArgsReader(reader: View, file: Opaque, data: Opaque) {
    static function On(v: View): WriteArgsReader
    {
      var file := FilehandleReader(v);
      WriteArgsReader(v, file, OpaqueReader(v, file.ReadSize() + 8 + 4 + 4, NO_LIMIT))
    }

    function Size(): nat
    {
      file.ReadSize() + 8 + 4 + 4 + data.ReadSize()
    }

    predicate Valid()
    {
      file.Valid() && data.Valid() && reader.HasSize(Size())
    }

    function Read(): WriteArgs
    {
      WriteArgs(file.ToBinary(),
                reader.Get64(file.ReadSize()),
                reader.Get32(8 + file.ReadSize()),
                reader.Get32(8 + 4 + file.ReadSize()),
                data.ToBinary())
    }
  }

  datatype CommitArgsReader = CommitArgsReader(reader: View, file: Opaque) {
    static function On(v: View): CommitArgsReader
    {
      CommitArgsReader(v, FilehandleReader(v))
    }

    function Size(): nat
    {
      12 + file.ReadSize()
    }

    predicate Valid()
    {
      file.Valid() && reader.HasSize(Size())
    }

    function Read(): CommitArgs
    {
      CommitArgs(file.ToBinary(), reader.Get64(0 + file.ReadSize()), reader.Get32(8 + file.ReadSize()))
    }
  }

  datatype RenameArgsReader = RenameArgsReader(from: DirOpArgsReader, to: DirOpArgsReader) {
    static function On(v: View): RenameArgsReader
    {
      var from := DirOpArgsReader.On(v);
      RenameArgsReader(from, DirOpArgsReader.On(v.Tail(from.Size())))
    }

    function Size(): nat
    {
      from.Size() + to.Size()
    }

    predicate Valid()
    {
      from.Valid() && to.Valid()
    }

    function Read(): RenameArgs
    {
      RenameArgs(from.Read(), to.Read())
    }
  }

  datatype ReadDirPlusArgsReader = ReadDirPlusArgsReader(reader: View, dir: Opaque) {
    static function On(v: View): ReadDirPlusArgsReader
    {
      ReadDirPlusArgsReader(v, FilehandleReader(v))
    }

    function Size(): nat
    {
      16 + dir.ReadSize() + VERIFIER_SIZE
    }

    predicate Valid()
    {
      dir.Valid() && reader.HasSize(Size())
    }

    function Read(): ReadDirPlusArgs
    {
      ReadDirPlusArgs(dir.ToBinary(),
                      reader.Get64(dir.ReadSize()),
                      reader.Slice(8 + dir.ReadSize(), VERIFIER_SIZE),
                      reader.Get32(8 + dir.ReadSize() + VERIFIER_SIZE),
                      reader.Get32(12 + dir.ReadSize() + VERIFIER_SIZE))
    }
  }

  // ----- readers undo the encodings -----

  /** A handle is accepted exactly when it is non-empty and at most 64 bytes. */
  predicate HandleAccepted(handle: seq<byte>)
  {
    0 < |handle| <= FILEHANDLE_SIZE
  }

  lemma {:induction false} DirOpRoundTrip(v: View, a: DirOpArgs)
    requires DirOpFits(a) && v.At(0, EncDirOp(a))
    ensures var r := DirOpArgsReader.On(v);
            && r.Size() == |EncDirOp(a)|
            && r.Read() == a
            && (r.Valid() <==> HandleAccepted(a.directory) && a.name != [])
  {
    AtSplit(v, 0, EncOpaque(a.directory), EncOpaque(a.name));
    OpaqueRoundTrip(v, 0, a.directory, FILEHANDLE_SIZE);
    OpaqueRoundTrip(v, |EncOpaque(a.directory)|, a.name, NO_LIMIT);
  }

  lemma ReadRoundTrip(v: View, a: ReadArgs)
    requires Fits(a.filehandle) && v.At(0, EncRead(a))
    ensures var r := ReadArgsReader.On(v);
            && r.Size() == |EncRead(a)|
            && r.Read() == a
            && (r.Valid() <==> HandleAccepted(a.filehandle))
  {
    hide EncOpaque, View.At;
    var n := |EncOpaque(a.filehandle)|;
    AtSlice(v, 0, EncRead(a));
    AtSplit(v, 0, EncOpaque(a.filehandle), Be(a.offset, 8) + Be(a.count, 4));
    AtSplit(v, n, Be(a.offset, 8), Be(a.count, 4));
    OpaqueRoundTrip(v, 0, a.filehandle, FILEHANDLE_SIZE);
    At64(v, n, a.offset);
    At32(v, n + 8, a.count);
  }

  lemma WriteLayout(v: View, a: WriteArgs)
    requires v.At(0, EncWrite(a))
    ensures var n := |EncOpaque(a.filehandle)|;
            && v.At(0, EncOpaque(a.filehandle)) && v.At(n, Be(a.offset, 8)) && v.At(n + 8, Be(a.count, 4))
            && v.At(n + 12, Be(a.stable, 4)) && v.At(n + 16, EncOpaque(a.data))
            && |EncWrite(a)| == n + 16 + |EncOpaque(a.data)|
  {
    var n := |EncOpaque(a.filehandle)|;
    var c := Be(a.stable, 4) + EncOpaque(a.data);
    AtSplit(v, 0, EncOpaque(a.filehandle), Be(a.offset, 8) + (Be(a.count, 4) + c));
    AtSplit(v, n, Be(a.offset, 8), Be(a.count, 4) + c);
    AtSplit(v, n + 8, Be(a.count, 4), c);
    AtSplit(v, n + 12, Be(a.stable, 4), EncOpaque(a.data));
  }

  /** A WRITE of no bytes is refused: its empty data is never valid. */
  lemma WriteRoundTrip(v: View, a: WriteArgs)
    requires Fits(a.filehandle) && Fits(a.data) && v.At(0, EncWrite(a))
    ensures var r := WriteArgsReader.On(v);
            && r.Size() == |EncWrite(a)|
            && r.Read() == a
            && (r.Valid() <==> HandleAccepted(a.filehandle) && a.data != [])
  {
    hide EncWrite, EncOpaque, View.At, View.Get32, View.Get64, Be;
    var r := WriteArgsReader.On(v);
    var n := |EncOpaque(a.filehandle)|;
    assert r.file.ReadSize() == n && r.file.ToBinary() == a.filehandle
           && (r.file.Valid() <==> HandleAccepted(a.filehandle)) by {
      WriteLayout(v, a);
      OpaqueRoundTrip(v, 0, a.filehandle, FILEHANDLE_SIZE);
    }
    assert v.Get64(n) == a.offset by { WriteLayout(v, a); At64(v, n, a.offset); }
    assert v.Get32(n + 8) == a.count by { WriteLayout(v, a); At32(v, n + 8, a.count); }
    assert v.Get32(n + 12) == a.stable by { WriteLayout(v, a); At32(v, n + 12, a.stable); }
    assert r.data.ReadSize() == |EncOpaque(a.data)| && r.data.ToBinary() == a.data
           && (r.data.Valid() <==> a.data != []) by {
      WriteLayout(v, a);
      OpaqueRoundTrip(v, n + 16, a.data, NO_LIMIT);
    }
    assert |EncWrite(a)| == n + 16 + |EncOpaque(a.data)| by { WriteLayout(v, a); }
    assert v.HasSize(|EncWrite(a)|) by { AtSlice(v, 0, EncWrite(a)); }
  }

  lemma CommitRoundTrip(v: View, a: CommitArgs)
    requires Fits(a.file) && v.At(0, EncCommit(a))
    ensures var r := CommitArgsReader.On(v);
            && r.Size() == |EncCommit(a)|
            && r.Read() == a
            && (r.Valid() <==> HandleAccepted(a.file))
  {
    hide EncOpaque, View.At, Be;
    var n := |EncOpaque(a.file)|;
    AtSlice(v, 0, EncCommit(a));
    AtSplit(v, 0, EncOpaque(a.file), Be(a.offset, 8) + Be(a.count, 4));
    AtSplit(v, n, Be(a.offset, 8), Be(a.count, 4));
    OpaqueRoundTrip(v, 0, a.file, FILEHANDLE_SIZE);
    At64(v, n, a.offset);
    At32(v, n + 8, a.count);
  }

  lemma RenameRoundTrip(v: View, a: RenameArgs)
    requires DirOpFits(a.from) && DirOpFits(a.to) && v.At(0, EncRename(a))
    ensures var r := RenameArgsReader.On(v);
            && r.Size() == |EncRename(a)|
            && r.Read() == a
            && (r.Valid() <==> HandleAccepted(a.from.directory) && a.from.name != []
                               && HandleAccepted(a.to.directory) && a.to.name != [])
  {
    var n := |EncDirOp(a.from)|;
    AtSplit(v, 0, EncDirOp(a.from), EncDirOp(a.to));
    DirOpRoundTrip(v, a.from);
    AtTail(v, n, 0, EncDirOp(a.to));
    DirOpRoundTrip(v.Tail(n), a.to);
  }

  lemma ReadDirPlusLayout(v: View, a: ReadDirPlusArgs)
    requires |a.verifier| == VERIFIER_SIZE && v.At(0, EncReadDirPlus(a))
    ensures var n := |EncOpaque(a.directory)|;
            && v.At(0, EncOpaque(a.directory)) && v.At(n, Be(a.cookie, 8)) && v.At(n + 8, a.verifier)
            && v.At(n + 16, Be(a.dircount, 4)) && v.At(n + 20, Be(a.maxcount, 4))
            && |EncReadDirPlus(a)| == n + 24
  {
    var n := |EncOpaque(a.directory)|;
    var c := Be(a.dircount, 4) + Be(a.maxcount, 4);
    AtSplit(v, 0, EncOpaque(a.directory), Be(a.cookie, 8) + (a.verifier + c));
    AtSplit(v, n, Be(a.cookie, 8), a.verifier + c);
    AtSplit(v, n + 8, a.verifier, c);
    AtSplit(v, n + 16, Be(a.dircount, 4), Be(a.maxcount, 4));
  }

  lemma ReadDirPlusRoundTrip(v: View, a: ReadDirPlusArgs)
    requires Fits(a.directory) && |a.verifier| == VERIFIER_SIZE && v.At(0, EncReadDirPlus(a))
    ensures var r := ReadDirPlusArgsReader.On(v);
            && r.Size() == |EncReadDirPlus(a)|
            && r.Read() == a
            && (r.Valid() <==> HandleAccepted(a.directory))
  {
    hide EncReadDirPlus, EncOpaque, View.At, View.Get32, View.Get64, Be;
    var r := ReadDirPlusArgsReader.On(v);
    var n := |EncOpaque(a.directory)|;
    assert r.dir.ReadSize() == n && r.dir.ToBinary() == a.directory
           && (r.dir.Valid() <==> HandleAccepted(a.directory)) by {
      ReadDirPlusLayout(v, a);
      OpaqueRoundTrip(v, 0, a.directory, FILEHANDLE_SIZE);
    }
    assert v.Get64(n) == a.cookie by { ReadDirPlusLayout(v, a); At64(v, n, a.cookie); }
    assert v.Slice(n + 8, VERIFIER_SIZE) == a.verifier by { ReadDirPlusLayout(v, a); AtSlice(v, n + 8, a.verifier); }
    assert v.Get32(n + 16) == a.dircount by { ReadDirPlusLayout(v, a); At32(v, n + 16, a.dircount); }
    assert v.Get32(n + 20) == a.maxcount by { ReadDirPlusLayout(v, a); At32(v, n + 20, a.maxcount); }
    assert |EncReadDirPlus(a)| == n + 24 by { ReadDirPlusLayout(v, a); }
    assert v.HasSize(n + 24) by { AtSlice(v, 0, EncReadDirPlus(a)); }
  }
}
