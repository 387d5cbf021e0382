/** The attribute-setting arguments: sattr3 and the calls that carry it
    (sections 3.3.2, 3.3.8 and 3.3.9 of RFC 1813).

    uid(), gid() and fsize() of the program look at the presence word of the
    mode, not at their own; the lemmas say exactly when that still decodes. */
module SetAttr {
  import opened Wrappers
  import opened Bytes
  import opened BinaryReader
  import opened Xdr
  import opened Nfs3Args

  const DONT_CHANGE: u32 := 0
  const SET_TO_SERVER_TIME: u32 := 1
  const SET_TO_CLIENT_TIME: u32 := 2

  datatype Time = Time(seconds: u32, nanoseconds: u32)

  datatype SetTime = DontChange | ToServerTime | ToClientTime(time: Time)

  datatype Sattr = Sattr(
    mode: Option<u32>, uid: Option<u32>, gid: Option<u32>, size: Option<u64>,
    atime: SetTime, mtime: SetTime)

  datatype SetAttrArgs = SetAttrArgs(filehandle: seq<byte>, attributes: Sattr, guard: Option<Time>)
  datatype MkdirArgs = MkdirArgs(where: DirOpArgs, attributes: Sattr)
  datatype CreateHow =
    | Exclusive(verifier: seq<byte>)
    | WithAttributes(how: u32, attributes: Sattr)
  datatype CreateArgs = CreateArgs(where: DirOpArgs, how: CreateHow)

  // ----- the standard's encodings -----

  function EncOption32(o: Option<u32>): (r: seq<byte>)
    ensures |r| == if o.Some? then 8 else 4
  {
    match o
    case None => Be(0, 4)
    case Some(x) => Be(1, 4) + Be(x, 4)
  }

  function EncOption64(o: Option<u64>): (r: seq<byte>)
    ensures |r| == if o.Some? then 12 else 4
  {
    match o
    case None => Be(0, 4)
    case Some(x) => Be(1, 4) + Be(x, 8)
  }

  function EncTime(t: Time): (r: seq<byte>)
    ensures |r| == 8
  {
    Be(t.seconds, 4) + Be(t.nanoseconds, 4)
  }

  function HowOf(t: SetTime): u32
  {
    match t
    case DontChange => DONT_CHANGE
    case ToServerTime => SET_TO_SERVER_TIME
    case ToClientTime(_) => SET_TO_CLIENT_TIME
  }

  function EncSetTime(t: SetTime): (r: seq<byte>)
    ensures |r| == if t.ToClientTime? then 12 else 4
  {
    Be(HowOf(t), 4) + (if t.ToClientTime? then EncTime(t.time) else [])
  }

  function EncSattr(a: Sattr): seq<byte>
  {
    EncOption32(a.mode) + (EncOption32(a.uid) + (EncOption32(a.gid) + (EncOption64(a.size)
    + (EncSetTime(a.atime) + EncSetTime(a.mtime)))))
  }

  function EncGuard(g: Option<Time>): (r: seq<byte>)
    ensures |r| == if g.Some? then 12 else 4
  {
    match g
    case None => Be(0, 4)
    case Some(t) => Be(1, 4) + EncTime(t)
  }

  function EncSetAttr(a: SetAttrArgs): seq<byte>
  {
    EncOpaque(a.filehandle) + (EncSattr(a.attributes) + EncGuard(a.guard))
  }

  function EncMkdir(a: MkdirArgs): seq<byte>
  {
    EncDirOp(a.where) + EncSattr(a.attributes)
  }

  function EncHow(h: CreateHow): seq<byte>
  {
    match h
    case Exclusive(verifier) => Be(EXCLUSIVE, 4) + verifier
    case WithAttributes(how, attributes) => Be(how, 4) + EncSattr(attributes)
  }

  function EncCreate(a: CreateArgs): seq<byte>
  {
    EncDirOp(a.where) + EncHow(a.how)
  }

  predicate HowFits(h: CreateHow)
  {
    match h
    case Exclusive(verifier) => |verifier| == VERIFIER_SIZE
    case WithAttributes(how, _) => how != EXCLUSIVE
  }

  // ----- the program's readers -----

  /** What the program's reader fills in. A time it never sets is None. */
  datatype SetAttrValue = SetAttrValue(
    mode: Option<u32>, uid: Option<u32>, gid: Option<u32>, size: Option<u64>,
    setAtime: u32, atime: Option<Time>, setMtime: u32, mtime: Option<Time>)

  datatype SetAttrReader = SetAttrReader(reader: View) {
    function Size(): nat
    {
      MtimeSize()
    }

    predicate Valid()
    {
      reader.HasSize(Size())
    }

    predicate HasMode()
    {
      reader.HasSize(4) && reader.Get32(0) != 0
    }

    function Mode(): Option<u32>
    {
      if HasMode() then Some(reader.Get32(4)) else None
    }

    function ModeSize(): nat
    {
      4 + if HasMode() then 4 else 0
    }

    predicate HasUid()
    {
      reader.HasSize(ModeSize() + 4) && reader.Get32(ModeSize()) != 0
    }

    function Uid(): Option<u32>
    {
      if HasMode() then Some(reader.Get32(4 + ModeSize())) else None
    }

    function UidSize(): nat
    {
      ModeSize() + 4 + if HasUid() then 4 else 0
    }

    predicate HasGid()
    {
      reader.HasSize(UidSize() + 4) && reader.Get32(UidSize()) != 0
    }

    function Gid(): Option<u32>
    {
      if HasMode() then Some(reader.Get32(4 + UidSize())) else None
    }

    function GidSize(): nat
    {
      UidSize() + 4 + if HasGid() then 4 else 0
    }

    predicate HasFsize()
    {
      reader.HasSize(GidSize() + 4) && reader.Get32(GidSize()) != 0
    }

    function Fsize(): Option<u64>
    {
      if HasMode() then Some(reader.Get64(4 + GidSize())) else None
    }

    function FsizeSize(): nat
    {
      GidSize() + 4 + if HasFsize() then 8 else 0
    }

    function AtimeHow(): u32
    {
      if reader.HasSize(FsizeSize() + 4) then reader.Get32(FsizeSize()) else DONT_CHANGE
    }

    function Atime(): Time
    {
      Time(reader.Get32(4 + FsizeSize()), reader.Get32(8 + FsizeSize()))
    }

    function AtimeSize(): nat
    {
      FsizeSize() + 4 + if AtimeHow() == SET_TO_CLIENT_TIME then 8 else 0
    }

    function MtimeHow(): u32
    {
      if reader.HasSize(AtimeSize() + 4) then reader.Get32(AtimeSize()) else DONT_CHANGE
    }

    function Mtime(): Time
    {
      Time(reader.Get32(4 + AtimeSize()), reader.Get32(8 + AtimeSize()))
    }

    function MtimeSize(): nat
    {
      AtimeSize() + 4 + if MtimeHow() == SET_TO_CLIENT_TIME then 8 else 0
    }

    function Read(): SetAttrValue
    {
      SetAttrValue(Mode(), Uid(), Gid(), Fsize(),
                   AtimeHow(), if AtimeHow() == SET_TO_CLIENT_TIME then Some(Atime()) else None,
                   MtimeHow(), if MtimeHow() == SET_TO_CLIENT_TIME then Some(Mtime()) else None)
    }
  }

  datatype SetAttrArgsReader = SetAttrArgsReader(reader: View, handle: Opaque, attributes: SetAttrReader) {
    static function On(v: View): SetAttrArgsReader
    {
      var handle := FilehandleReader(v);
      SetAttrArgsReader(v, handle, SetAttrReader(v.Tail(handle.ReadSize())))
    }

    function Size(): nat
    {
      handle.ReadSize() + attributes.Size() + 4 + if HasTime() then 8 else 0
    }

    predicate Valid()
    {
      handle.Valid() && attributes.Valid() && reader.HasSize(Size())
    }

    predicate HasTime()
    {
      && reader.HasSize(handle.ReadSize() + attributes.Size() + 4)
      && reader.Get32(handle.ReadSize() + attributes.Size()) != 0
    }

    function CheckTime(): Option<Time>
    {
      if HasTime()
      then Some(Time(reader.Get32(handle.ReadSize() + attributes.Size() + 4),
                     reader.Get32(handle.ReadSize() + attributes.Size() + 8)))
      else None
    }
  }

  datatype MkdirArgsReader = MkdirArgsReader(where: DirOpArgsReader, attributes: SetAttrReader) {
    static function On(v: View): MkdirArgsReader
    {
      var where := DirOpArgsReader.On(v);
      MkdirArgsReader(where, SetAttrReader(v.Tail(where.Size())))
    }

    function Size(): nat
    {
      where.Size() + attributes.Size()
    }

    predicate Valid()
    {
      where.Valid() && attributes.Valid()
    }
  }

  datatype CreateArgsReader = CreateArgsReader(reader: View, where: DirOpArgsReader, attributes: SetAttrReader) {
    static function On(v: View): CreateArgsReader
    {
      var where := DirOpArgsReader.On(v);
      CreateArgsReader(v, where, SetAttrReader(v.Tail(where.Size() + 4)))
    }

    function Size(): nat
    {
      where.Size() + 4 + HowSize()
    }

    predicate Valid()
    {
      where.Valid() && reader.HasSize(Size()) && (How() == EXCLUSIVE || attributes.Valid())
    }

    function How(): u32
    {
      if reader.HasSize(where.Size() + 4) then reader.Get32(where.Size()) else UNCHECKED
    }

    function HowSize(): nat
    {
      if How() == EXCLUSIVE then VERIFIER_SIZE else attributes.Size()
    }

    function Verifier(): Option<seq<byte>>
    {
      if How() == EXCLUSIVE then Some(reader.Slice(where.Size() + 4, VERIFIER_SIZE)) else None
    }

    function Attributes(): Option<SetAttrValue>
    {
      if How() == EXCLUSIVE then None else Some(attributes.Read())
    }
  }

  // ----- what the reader should have filled in -----

  function TimeOf(t: SetTime): Option<Time>
  {
    if t.ToClientTime? then Some(t.time) else None
  }

  function ValueOf(a: Sattr): SetAttrValue
  {
    SetAttrValue(a.mode, a.uid, a.gid, a.size,
                 HowOf(a.atime), TimeOf(a.atime), HowOf(a.mtime), TimeOf(a.mtime))
  }

  /** Owner, group and size are sent exactly when the mode is. */
  predicate PresenceAgrees(a: Sattr)
  {
    a.mode.Some? == a.uid.Some? == a.gid.Some? == a.size.Some?
  }

  // ----- located fields -----

  lemma AtOption32(v: View, offset: nat, o: Option<u32>)
    requires v.At(offset, EncOption32(o))
    ensures v.HasSize(offset + 4)
    ensures v.Get32(offset) != 0 <==> o.Some?
    ensures o.Some? ==> v.Get32(offset + 4) == o.value
  {
    match o
    case None =>
      At32(v, offset, 0);
    case Some(x) =>
      AtSplit(v, offset, Be(1, 4), Be(x, 4));
      At32(v, offset, 1);
      At32(v, offset + 4, x);
  }

  lemma AtOption64(v: View, offset: nat, o: Option<u64>)
    requires v.At(offset, EncOption64(o))
    ensures v.HasSize(offset + 4)
    ensures v.Get32(offset) != 0 <==> o.Some?
    ensures o.Some? ==> v.Get64(offset + 4) == o.value
  {
    match o
    case None =>
      At32(v, offset, 0);
    case Some(x) =>
      AtSplit(v, offset, Be(1, 4), Be(x, 8));
      At32(v, offset, 1);
      At64(v, offset + 4, x);
  }

  lemma AtTime(v: View, offset: nat, t: Time)
    requires v.At(offset, EncTime(t))
    ensures v.Get32(offset) == t.seconds && v.Get32(offset + 4) == t.nanoseconds
    ensures v.HasSize(offset + 8)
  {
    AtSplit(v, offset, Be(t.seconds, 4), Be(t.nanoseconds, 4));
    At32(v, offset, t.seconds);
    At32(v, offset + 4, t.nanoseconds);
  }

  lemma AtSetTime(v: View, offset: nat, t: SetTime)
    requires v.At(offset, EncSetTime(t))
    ensures v.HasSize(offset + |EncSetTime(t)|)
    ensures v.Get32(offset) == HowOf(t)
    ensures t.ToClientTime? ==> Time(v.Get32(offset + 4), v.Get32(offset + 8)) == t.time
  {
    hide EncTime;
    var rest := if t.ToClientTime? then EncTime(t.time) else [];
    AtSplit(v, offset, Be(HowOf(t), 4), rest);
    At32(v, offset, HowOf(t));
    if t.ToClientTime? {
      AtTime(v, offset + 4, t.time);
    }
  }

  /** Where the six fields of an encoded sattr3 stand. */
  lemma SattrLayout(v: View, a: Sattr)
    requires v.At(0, EncSattr(a))
    ensures var u := |EncOption32(a.mode)|; var g := u + |EncOption32(a.uid)|;
            var s := g + |EncOption32(a.gid)|; var t := s + |EncOption64(a.size)|;
            var m := t + |EncSetTime(a.atime)|;
            && v.At(0, EncOption32(a.mode)) && v.At(u, EncOption32(a.uid)) && v.At(g, EncOption32(a.gid))
            && v.At(s, EncOption64(a.size)) && v.At(t, EncSetTime(a.atime)) && v.At(m, EncSetTime(a.mtime))
            && |EncSattr(a)| == m + |EncSetTime(a.mtime)|
  {
    var u := |EncOption32(a.mode)|;
    var g := u + |EncOption32(a.uid)|;
    var s := g + |EncOption32(a.gid)|;
    var t := s + |EncOption64(a.size)|;
    var times := EncSetTime(a.atime) + EncSetTime(a.mtime);
    var fromSize := EncOption64(a.size) + times;
    var fromGid := EncOption32(a.gid) + fromSize;
    var fromUid := EncOption32(a.uid) + fromGid;
    assert EncSattr(a) == EncOption32(a.mode) + fromUid;
    hide EncOption32, EncOption64, EncSetTime, EncSattr, View.At;
    AtSplit(v, 0, EncOption32(a.mode), fromUid);
    AtSplit(v, u, EncOption32(a.uid), fromGid);
    AtSplit(v, g, EncOption32(a.gid), fromSize);
    AtSplit(v, s, EncOption64(a.size), times);
    AtSplit(v, t, EncSetTime(a.atime), EncSetTime(a.mtime));
  }

  /** The chain of sizes lands on the fields, whatever is present. */
  lemma SattrOffsets(v: View, a: Sattr)
    requires v.At(0, EncSattr(a))
    ensures var r := SetAttrReader(v);
            var u := |EncOption32(a.mode)|; var g := u + |EncOption32(a.uid)|;
            var s := g + |EncOption32(a.gid)|; var t := s + |EncOption64(a.size)|;
            && r.ModeSize() == u && r.UidSize() == g && r.GidSize() == s && r.FsizeSize() == t
            && r.HasMode() == a.mode.Some? && r.HasUid() == a.uid.Some?
            && r.HasGid() == a.gid.Some? && r.HasFsize() == a.size.Some?
  {
    SattrLayout(v, a);
    var u := |EncOption32(a.mode)|;
    var g := u + |EncOption32(a.uid)|;
    AtOption32(v, 0, a.mode);
    AtOption32(v, u, a.uid);
    AtOption32(v, g, a.gid);
    AtOption64(v, g + |EncOption32(a.gid)|, a.size);
  }

  /** Sizes, mode and both times are right for every combination of fields. */
  lemma SattrTimes(v: View, a: Sattr)
    requires v.At(0, EncSattr(a))
    ensures var r := SetAttrReader(v);
            && r.Size() == |EncSattr(a)| && r.Valid()
            && r.Mode() == a.mode
            && r.AtimeHow() == HowOf(a.atime) && r.MtimeHow() == HowOf(a.mtime)
            && (a.atime.ToClientTime? ==> r.Atime() == a.atime.time)
            && (a.mtime.ToClientTime? ==> r.Mtime() == a.mtime.time)
  {
    hide EncOption32, EncOption64, EncSetTime, EncSattr, View.At, View.Size;
    AtSlice(v, 0, EncSattr(a));
    SattrLayout(v, a);
    SattrOffsets(v, a);
    AtOption32(v, 0, a.mode);
    var r := SetAttrReader(v);
    AtSetTime(v, r.FsizeSize(), a.atime);
    assert r.AtimeSize() == r.FsizeSize() + |EncSetTime(a.atime)|;
    AtSetTime(v, r.AtimeSize(), a.mtime);
  }

  /** Each of uid, gid and size is right exactly when it is present iff the mode is. */
  lemma SattrOwners(v: View, a: Sattr)
    requires v.At(0, EncSattr(a))
    ensures var r := SetAttrReader(v);
            && (r.Uid() == a.uid <==> a.uid.Some? == a.mode.Some?)
            && (r.Gid() == a.gid <==> a.gid.Some? == a.mode.Some?)
            && (r.Fsize() == a.size <==> a.size.Some? == a.mode.Some?)
  {
    SattrLayout(v, a);
    SattrOffsets(v, a);
    var r := SetAttrReader(v);
    AtOption32(v, r.ModeSize(), a.uid);
    AtOption32(v, r.UidSize(), a.gid);
    AtOption64(v, r.GidSize(), a.size);
  }

  /** What the program's reader makes of a sattr3, whatever is present: mode and times
      are right always; owner, group and size each exactly when it is present iff the
      mode is. */
  ghost predicate ReadAsFar(v: SetAttrValue, a: Sattr)
  {
    && v.mode == a.mode
    && v.setAtime == HowOf(a.atime) && v.atime == TimeOf(a.atime)
    && v.setMtime == HowOf(a.mtime) && v.mtime == TimeOf(a.mtime)
    && (v.uid == a.uid <==> a.uid.Some? == a.mode.Some?)
    && (v.gid == a.gid <==> a.gid.Some? == a.mode.Some?)
    && (v.size == a.size <==> a.size.Some? == a.mode.Some?)
    && v.uid.Some? == v.gid.Some? == v.size.Some? == a.mode.Some?
  }

  lemma SattrRead(v: View, a: Sattr)
    requires v.At(0, EncSattr(a))
    ensures ReadAsFar(SetAttrReader(v).Read(), a)
  {
    SattrTimes(v, a);
    SattrOwners(v, a);
    SattrOffsets(v, a);
  }

  /** The whole value is decoded exactly when owner, group and size travel with
      the mode. */
  lemma SattrRoundTrip(v: View, a: Sattr)
    requires v.At(0, EncSattr(a))
    ensures var r := SetAttrReader(v);
            && r.Size() == |EncSattr(a)| && r.Valid()
            && ReadAsFar(r.Read(), a)
            && (r.Read() == ValueOf(a) <==> PresenceAgrees(a))
  {
    SattrTimes(v, a);
    SattrRead(v, a);
  }

  /** A client that sets only the size: the program sees no size at all. */
  lemma SizeAloneIsLost(v: View, size: u64)
    requires v.At(0, EncSattr(Sattr(None, None, None, Some(size), DontChange, DontChange)))
    ensures SetAttrReader(v).Read().size == None
  {
    SattrOwners(v, Sattr(None, None, None, Some(size), DontChange, DontChange));
    SattrOffsets(v, Sattr(None, None, None, Some(size), DontChange, DontChange));
  }

  lemma AtGuard(v: View, offset: nat, g: Option<Time>)
    requires v.At(offset, EncGuard(g))
    ensures v.HasSize(offset + |EncGuard(g)|)
    ensures v.Get32(offset) != 0 <==> g.Some?
    ensures g.Some? ==> Time(v.Get32(offset + 4), v.Get32(offset + 8)) == g.value
  {
    match g
    case None =>
      At32(v, offset, 0);
    case Some(t) =>
      AtSplit(v, offset, Be(1, 4), EncTime(t));
      At32(v, offset, 1);
      AtTime(v, offset + 4, t);
  }

  lemma HandleSattrGuard(v: View, handle: seq<byte>, attributes: seq<byte>, guard: seq<byte>)
    requires v.At(0, handle + (attributes + guard))
    ensures v.At(0, handle) && v.Tail(|handle|).At(0, attributes) && v.At(|handle| + |attributes|, guard)
  {
    AtSplit(v, 0, handle, attributes + guard);
    AtSplit(v, |handle|, attributes, guard);
    AtTail(v, |handle|, 0, attributes);
  }

  lemma SetAttrLayout(v: View, a: SetAttrArgs)
    requires v.At(0, EncSetAttr(a))
    ensures var n := |EncOpaque(a.filehandle)|;
            var m := n + |EncSattr(a.attributes)|;
            && v.At(0, EncOpaque(a.filehandle)) && v.Tail(n).At(0, EncSattr(a.attributes))
            && v.At(m, EncGuard(a.guard)) && |EncSetAttr(a)| == m + |EncGuard(a.guard)|
  {
    HandleSattrGuard(v, EncOpaque(a.filehandle), EncSattr(a.attributes), EncGuard(a.guard));
  }

  /** SETATTR: the guard is found behind attributes of any shape. */
  lemma SetAttrArgsRoundTrip(v: View, a: SetAttrArgs)
    requires Fits(a.filehandle) && v.At(0, EncSetAttr(a))
    ensures var r := SetAttrArgsReader.On(v);
            && r.Size() == |EncSetAttr(a)|
            && (r.Valid() <==> HandleAccepted(a.filehandle))
            && r.handle.ToBinary() == a.filehandle
            && r.CheckTime() == a.guard
            && ReadAsFar(r.attributes.Read(), a.attributes)
            && (r.attributes.Read() == ValueOf(a.attributes) <==> PresenceAgrees(a.attributes))
  {
    hide ReadAsFar, EncSetAttr, EncSattr, EncGuard, EncOpaque, View.At, SetAttrReader.Read, SetAttrReader.Size;
    var r := SetAttrArgsReader.On(v);
    var n := |EncOpaque(a.filehandle)|;
    var m := n + |EncSattr(a.attributes)|;
    assert r.handle.ReadSize() == n && r.handle.ToBinary() == a.filehandle
           && (r.handle.Valid() <==> HandleAccepted(a.filehandle)) by {
      SetAttrLayout(v, a);
      OpaqueRoundTrip(v, 0, a.filehandle, FILEHANDLE_SIZE);
    }
    assert r.attributes.Size() == m - n && r.attributes.Valid() && ReadAsFar(r.attributes.Read(), a.attributes)
           && (r.attributes.Read() == ValueOf(a.attributes) <==> PresenceAgrees(a.attributes)) by {
      SetAttrLayout(v, a);
      SattrRoundTrip(v.Tail(n), a.attributes);
    }
    assert v.HasSize(m + |EncGuard(a.guard)|) && (v.Get32(m) != 0 <==> a.guard.Some?)
           && (a.guard.Some? ==> Time(v.Get32(m + 4), v.Get32(m + 8)) == a.guard.value) by {
      SetAttrLayout(v, a);
      AtGuard(v, m, a.guard);
    }
    assert |EncSetAttr(a)| == m + |EncGuard(a.guard)| by { SetAttrLayout(v, a); }
  }

  lemma MkdirArgsRoundTrip(v: View, a: MkdirArgs)
    requires DirOpFits(a.where) && v.At(0, EncMkdir(a))
    ensures var r := MkdirArgsReader.On(v);
            && r.Size() == |EncMkdir(a)|
            && (r.Valid() <==> HandleAccepted(a.where.directory) && a.where.name != [])
            && r.where.Read() == a.where
            && ReadAsFar(r.attributes.Read(), a.attributes)
            && (r.attributes.Read() == ValueOf(a.attributes) <==> PresenceAgrees(a.attributes))
  {
    hide ReadAsFar, EncDirOp, EncSattr, SetAttrReader.Read, SetAttrReader.Size;
    var n := |EncDirOp(a.where)|;
    AtSplit(v, 0, EncDirOp(a.where), EncSattr(a.attributes));
    DirOpRoundTrip(v, a.where);
    AtTail(v, n, 0, EncSattr(a.attributes));
    SattrRoundTrip(v.Tail(n), a.attributes);
  }

  lemma CreateLayout(v: View, a: CreateArgs)
    requires v.At(0, EncCreate(a))
    ensures var n := |EncDirOp(a.where)|;
            && v.At(0, EncDirOp(a.where))
            && (match a.how
                case Exclusive(verifier) =>
                  && |EncCreate(a)| == n + 4 + |verifier|
                  && v.At(n, Be(EXCLUSIVE, 4)) && v.At(n + 4, verifier)
                case WithAttributes(how, attributes) =>
                  && |EncCreate(a)| == n + 4 + |EncSattr(attributes)|
                  && v.At(n, Be(how, 4)) && v.Tail(n + 4).At(0, EncSattr(attributes)))
  {
    hide EncDirOp, EncSattr, View.At;
    var n := |EncDirOp(a.where)|;
    AtSplit(v, 0, EncDirOp(a.where), EncHow(a.how));
    match a.how
    case Exclusive(verifier) =>
      AtSplit(v, n, Be(EXCLUSIVE, 4), verifier);
    case WithAttributes(how, attributes) =>
      AtSplit(v, n, Be(how, 4), EncSattr(attributes));
      AtTail(v, n + 4, 0, EncSattr(attributes));
  }

  /** CREATE: the exclusive form yields its verifier, the others their attributes. */
  lemma CreateArgsRoundTrip(v: View, a: CreateArgs)
    requires DirOpFits(a.where) && HowFits(a.how) && v.At(0, EncCreate(a))
    ensures var r := CreateArgsReader.On(v);
            && r.Size() == |EncCreate(a)|
            && (r.Valid() <==> HandleAccepted(a.where.directory) && a.where.name != [])
            && r.where.Read() == a.where
            && (match a.how
                case Exclusive(verifier) =>
                  r.How() == EXCLUSIVE && r.Verifier() == Some(verifier) && r.Attributes() == None
                case WithAttributes(how, attributes) =>
                  && r.How() == how && r.Verifier() == None
                  && r.Attributes().Some? && ReadAsFar(r.Attributes().value, attributes)
                  && (r.Attributes() == Some(ValueOf(attributes)) <==> PresenceAgrees(attributes)))
  {
    hide ReadAsFar, EncCreate, EncHow, EncSattr, EncDirOp, View.At;
    hide SetAttrReader.Read, SetAttrReader.Size, DirOpArgsReader.Read, DirOpArgsReader.Size, DirOpArgsReader.Valid;
    var r := CreateArgsReader.On(v);
    var n := |EncDirOp(a.where)|;
    assert r.where.Size() == n && r.where.Read() == a.where
           && (r.where.Valid() <==> HandleAccepted(a.where.directory) && a.where.name != []) by {
      CreateLayout(v, a);
      DirOpRoundTrip(v, a.where);
    }
    assert v.HasSize(|EncCreate(a)|) by { AtSlice(v, 0, EncCreate(a)); }
    assert |EncCreate(a)| == n + 4 + (match a.how
                                      case Exclusive(_) => VERIFIER_SIZE
                                      case WithAttributes(_, attributes) => |EncSattr(attributes)|) by {
      CreateLayout(v, a);
    }
    match a.how
    case Exclusive(verifier) =>
      assert v.Get32(n) == EXCLUSIVE by { CreateLayout(v, a); At32(v, n, EXCLUSIVE); }
      assert v.Slice(n + 4, VERIFIER_SIZE) == verifier by { CreateLayout(v, a); AtSlice(v, n + 4, verifier); }
    case WithAttributes(how, attributes) =>
      assert v.Get32(n) == how by { CreateLayout(v, a); At32(v, n, how); }
      assert r.attributes.Size() == |EncSattr(attributes)| && r.attributes.Valid()
             && ReadAsFar(r.attributes.Read(), attributes)
             && (r.attributes.Read() == ValueOf(attributes) <==> PresenceAgrees(attributes)) by {
        CreateLayout(v, a);
        SattrRoundTrip(v.Tail(n + 4), attributes);
      }
  }
}
