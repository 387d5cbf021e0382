/** The READDIRPLUS reply: the program's writers against a decoder written from
    sections 2.6 and 3.3.17 of RFC 1813. */
module Nfs3Results {
  import opened Wrappers
  import opened Bytes
  import opened BinaryBuilder
  import opened Xdr
  import opened XdrDecoder
  import opened WinTime
  import opened Nfs3Args
  import opened Nfs3Status

  datatype FileAttr = FileAttr(
    fileType: u32, mode: u32, nlink: u32, uid: u32, gid: u32, size: u64, used: u64,
    rdev1: u32, rdev2: u32, fsid: u64, fileid: u64,
    atime: UnixTime, mtime: UnixTime, ctime: UnixTime)

  datatype ReadDirPlusEntry = ReadDirPlusEntry(
    fileId: u64, name: OctetString, cookie: u64,
    attributes: Option<FileAttr>, handle: Option<seq<byte>>)

  datatype ReadDirPlusResult = ReadDirPlusResult(
    status: u32, directoryAttributes: Option<FileAttr>, verifier: seq<byte>,
    reply: seq<ReadDirPlusEntry>, isFinished: bool)

  // ----- runs of fixed-width words -----

  datatype Field = Field(value: nat, width: nat)

  function EncFields(fields: seq<Field>): seq<byte>
  {
    if fields == [] then [] else Be(fields[0].value, fields[0].width) + EncFields(fields[1..])
  }

  function Widths(fields: seq<Field>): seq<nat>
  {
    seq<nat>(|fields|, (i: nat) => if i < |fields| then fields[i].width else 0)
  }

  function Values(fields: seq<Field>): seq<nat>
  {
    seq<nat>(|fields|, (i: nat) => if i < |fields| then fields[i].value else 0)
  }

  ghost predicate FieldsFit(fields: seq<Field>)
  {
    forall i :: 0 <= i < |fields| ==> fields[i].value < Pow256(fields[i].width)
  }

  lemma {:induction false} EncFieldsSnoc(fields: seq<Field>, k: nat)
    requires k < |fields|
    ensures EncFields(fields[..k + 1]) == EncFields(fields[..k]) + Be(fields[k].value, fields[k].width)
  {
    if k > 0 {
      EncFieldsSnoc(fields[1..], k - 1);
      assert fields[..k + 1][1..] == fields[1..][..k];
      assert fields[..k][1..] == fields[1..][..k - 1];
      assert fields[1..][k - 1] == fields[k];
    } else {
      assert fields[..1] == [fields[0]];
      assert EncFields(fields[..1]) == Be(fields[0].value, fields[0].width) + EncFields([]);
    }
  }

  // ----- the standard's layouts -----

  /** fattr3: 84 bytes. */
  function AttrFields(a: FileAttr): seq<Field>
  {
    [Field(a.fileType, 4), Field(a.mode, 4), Field(a.nlink, 4), Field(a.uid, 4), Field(a.gid, 4),
     Field(a.size, 8), Field(a.used, 8), Field(a.rdev1, 4), Field(a.rdev2, 4),
     Field(a.fsid, 8), Field(a.fileid, 8),
     Field(a.atime.seconds % TWO_32, 4), Field(a.atime.nanoseconds, 4),
     Field(a.mtime.seconds % TWO_32, 4), Field(a.mtime.nanoseconds, 4),
     Field(a.ctime.seconds % TWO_32, 4), Field(a.ctime.nanoseconds, 4)]
  }

  function EncFileAttr(a: FileAttr): seq<byte>
  {
    EncFields(AttrFields(a))
  }

  function EncPostOpAttr(a: Option<FileAttr>): seq<byte>
  {
    match a
    case None => Be(0, 4)
    case Some(attr) => Be(1, 4) + EncFileAttr(attr)
  }

  function EncPostOpHandle(h: Option<seq<byte>>): seq<byte>
  {
    match h
    case None => Be(0, 4)
    case Some(handle) => Be(1, 4) + EncOpaque(Cut(handle))
  }

  /** A handle as it is sent: at most 64 bytes of it. */
  function Cut(handle: seq<byte>): seq<byte>
  {
    if |handle| <= FILEHANDLE_SIZE then handle else handle[..FILEHANDLE_SIZE]
  }

  function EncEntry(e: ReadDirPlusEntry): seq<byte>
  {
    Be(e.fileId, 8) + (EncOpaque(e.name) + (Be(e.cookie, 8)
    + (EncPostOpAttr(e.attributes) + EncPostOpHandle(e.handle))))
  }

  function EncEntries(es: seq<ReadDirPlusEntry>): seq<byte>
  {
    if es == [] then Be(0, 4) else Be(1, 4) + (EncEntry(es[0]) + EncEntries(es[1..]))
  }

  /** READDIRPLUS3resok. */
  function EncResok(r: ReadDirPlusResult): seq<byte>
  {
    EncPostOpAttr(r.directoryAttributes) + (r.verifier + (EncEntries(r.reply) + EncBool(r.isFinished)))
  }

  function EncReadDirPlusResult(r: ReadDirPlusResult): seq<byte>
  {
    Be(r.status, 4) + if r.status == OK then EncResok(r) else EncPostOpAttr(r.directoryAttributes)
  }

  // ----- a decoder from the standard -----

  function TakeFields(s: seq<byte>, widths: seq<nat>): (p: Parsed<seq<nat>>)
    ensures p.Got? ==> |p.rest| <= |s| && |p.value| == |widths|
    ensures p.Got? ==> forall i :: 0 <= i < |widths| ==> p.value[i] < Pow256(widths[i])
  {
    if widths == [] then Got([], s) else
    match TakeNumber(s, widths[0])
    case Bad => Bad
    case Got(x, afterFirst) =>
      match TakeFields(afterFirst, widths[1..])
      case Bad => Bad
      case Got(xs, rest) => Got([x] + xs, rest)
  }

  const ATTR_WIDTHS: seq<nat> := [4, 4, 4, 4, 4, 8, 8, 4, 4, 8, 8, 4, 4, 4, 4, 4, 4]

  predicate AttrInRange(x: seq<nat>)
  {
    && |x| == 17
    && x[0] < TWO_32 && x[1] < TWO_32 && x[2] < TWO_32 && x[3] < TWO_32 && x[4] < TWO_32
    && x[5] < TWO_64 && x[6] < TWO_64 && x[7] < TWO_32 && x[8] < TWO_32
    && x[9] < TWO_64 && x[10] < TWO_64
    && x[11] < TWO_32 && x[12] < TWO_32 && x[13] < TWO_32 && x[14] < TWO_32 && x[15] < TWO_32 && x[16] < TWO_32
  }

  function AttrOf(x: seq<nat>): FileAttr
    requires AttrInRange(x)
  {
    FileAttr(x[0], x[1], x[2], x[3], x[4], x[5], x[6], x[7], x[8], x[9], x[10],
             UnixTime(x[11], x[12]), UnixTime(x[13], x[14]), UnixTime(x[15], x[16]))
  }

  lemma AttrBounds(x: seq<nat>)
    requires |x| == 17 && forall i :: 0 <= i < 17 ==> x[i] < Pow256(ATTR_WIDTHS[i])
    ensures AttrInRange(x)
  {
    hide Pow256;
    PowValues();
  }

  function TakeFileAttr(s: seq<byte>): (p: Parsed<FileAttr>)
    ensures p.Got? ==> |p.rest| <= |s|
  {
    match TakeFields(s, ATTR_WIDTHS)
    case Bad => Bad
    case Got(x, rest) =>
      AttrBounds(x);
      Got(AttrOf(x), rest)
  }

  function TakePostOpAttr(s: seq<byte>): (p: Parsed<Option<FileAttr>>)
    ensures p.Got? ==> |p.rest| <= |s|
  {
    match TakeBool(s)
    case Bad => Bad
    case Got(follows, afterFlag) =>
      if !follows then Got(None, afterFlag) else
      match TakeFileAttr(afterFlag)
      case Bad => Bad
      case Got(a, rest) => Got(Some(a), rest)
  }

  function TakePostOpHandle(s: seq<byte>): (p: Parsed<Option<seq<byte>>>)
    ensures p.Got? ==> |p.rest| <= |s|
  {
    match TakeBool(s)
    case Bad => Bad
    case Got(follows, afterFlag) =>
      if !follows then Got(None, afterFlag) else
      match TakeOpaque(afterFlag, FILEHANDLE_SIZE)
      case Bad => Bad
      case Got(h, rest) => Got(Some(h), rest)
  }

  function TakeEntry(s: seq<byte>): (p: Parsed<ReadDirPlusEntry>)
    ensures p.Got? ==> |p.rest| < |s|
  {
    match Take64(s)
    case Bad => Bad
    case Got(fileId, s1) =>
      match TakeOpaque(s1, NO_LIMIT)
      case Bad => Bad
      case Got(name, s2) =>
        match Take64(s2)
        case Bad => Bad
        case Got(cookie, s3) =>
          match TakePostOpAttr(s3)
          case Bad => Bad
          case Got(attributes, s4) =>
            match TakePostOpHandle(s4)
            case Bad => Bad
            case Got(handle, rest) => Got(ReadDirPlusEntry(fileId, name, cookie, attributes, handle), rest)
  }

  function TakeEntries(s: seq<byte>): (p: Parsed<seq<ReadDirPlusEntry>>)
    ensures p.Got? ==> |p.rest| <= |s|
    decreases |s|
  {
    match TakeBool(s)
    case Bad => Bad
    case Got(more, afterFlag) =>
      if !more then Got([], afterFlag) else
      match TakeEntry(afterFlag)
      case Bad => Bad
      case Got(e, afterEntry) =>
        match TakeEntries(afterEntry)
        case Bad => Bad
        case Got(es, rest) => Got([e] + es, rest)
  }

  function TakeResok(s: seq<byte>): Parsed<ReadDirPlusResult>
  {
    match TakePostOpAttr(s)
    case Bad => Bad
    case Got(attributes, s1) =>
      match TakeBytes(s1, VERIFIER_SIZE)
      case Bad => Bad
      case Got(verifier, s2) =>
        match TakeEntries(s2)
        case Bad => Bad
        case Got(entries, s3) =>
          match TakeBool(s3)
          case Bad => Bad
          case Got(eof, rest) => Got(ReadDirPlusResult(OK, attributes, verifier, entries, eof), rest)
  }

  function TakeReadDirPlusResult(s: seq<byte>): Parsed<ReadDirPlusResult>
  {
    match Take32(s)
    case Bad => Bad
    case Got(status, body) =>
      if status == OK then TakeResok(body) else
      match TakePostOpAttr(body)
      case Bad => Bad
      case Got(attributes, rest) => Got(ReadDirPlusResult(status, attributes, [], [], true), rest)
  }

  // ----- what survives the wire -----

  /** Seconds are cut to 32 bits on the wire; nothing else is lost. */
  function WireTime(t: UnixTime): UnixTime
  {
    t.(seconds := t.seconds % TWO_32)
  }

  function WireAttr(a: FileAttr): FileAttr
  {
    a.(atime := WireTime(a.atime), mtime := WireTime(a.mtime), ctime := WireTime(a.ctime))
  }

  function WireOption(a: Option<FileAttr>): Option<FileAttr>
  {
    if a.Some? then Some(WireAttr(a.value)) else None
  }

  function WireEntry(e: ReadDirPlusEntry): ReadDirPlusEntry
  {
    e.(attributes := WireOption(e.attributes))
  }

  function WireEntries(es: seq<ReadDirPlusEntry>): (r: seq<ReadDirPlusEntry>)
    ensures |r| == |es|
    ensures forall i :: 0 <= i < |es| ==> r[i] == WireEntry(es[i])
  {
    if es == [] then [] else [WireEntry(es[0])] + WireEntries(es[1..])
  }

  ghost predicate EntryFits(e: ReadDirPlusEntry)
  {
    |e.name| < TWO_32 && (e.handle.Some? ==> |e.handle.value| <= FILEHANDLE_SIZE)
  }

  ghost predicate EntriesFit(es: seq<ReadDirPlusEntry>)
  {
    forall i :: 0 <= i < |es| ==> EntryFits(es[i])
  }

  // ----- the decoder undoes the encoding -----

  lemma {:induction false} TakeFieldsOfEnc(fields: seq<Field>, rest: seq<byte>)
    requires FieldsFit(fields)
    ensures TakeFields(EncFields(fields) + rest, Widths(fields)) == Got(Values(fields), rest)
  {
    if fields == [] {
      assert EncFields(fields) + rest == rest;
    } else {
      hide Be, TakeNumber, Pow256;
      var f, tail := fields[0], fields[1..];
      Regroup(Be(f.value, f.width), EncFields(tail), rest);
      assert EncFields(fields) + rest == Be(f.value, f.width) + (EncFields(tail) + rest);
      TakeNumberOfBe(f.value, f.width, EncFields(tail) + rest);
      assert Widths(fields)[0] == f.width && Widths(fields)[1..] == Widths(tail);
      assert Values(fields) == [f.value] + Values(tail);
      TakeFieldsOfEnc(tail, rest);
      hide EncFields, Widths, Values;
    }
  }

  lemma AttrFieldsFit(a: FileAttr)
    ensures FieldsFit(AttrFields(a))
  {
    hide Pow256;
    PowValues();
    assert |AttrFields(a)| == 17;
  }

  lemma AttrFieldsShape(a: FileAttr)
    ensures Widths(AttrFields(a)) == ATTR_WIDTHS
    ensures Values(AttrFields(a)) ==
            [a.fileType, a.mode, a.nlink, a.uid, a.gid, a.size, a.used, a.rdev1, a.rdev2, a.fsid, a.fileid,
             a.atime.seconds % TWO_32, a.atime.nanoseconds, a.mtime.seconds % TWO_32, a.mtime.nanoseconds,
             a.ctime.seconds % TWO_32, a.ctime.nanoseconds]
  {}

  lemma TakeFileAttrOfEnc(a: FileAttr, rest: seq<byte>)
    ensures TakeFileAttr(EncFileAttr(a) + rest) == Got(WireAttr(a), rest)
  {
    AttrFieldsFit(a);
    AttrFieldsShape(a);
    TakeFieldsOfEnc(AttrFields(a), rest);
  }

  lemma TakePostOpAttrOfEnc(a: Option<FileAttr>, rest: seq<byte>)
    ensures TakePostOpAttr(EncPostOpAttr(a) + rest) == Got(WireOption(a), rest)
  {
    match a
    case None =>
      TakeBoolOfEnc(false, rest);
    case Some(attr) =>
      assert EncPostOpAttr(a) + rest == EncBool(true) + (EncFileAttr(attr) + rest);
      TakeBoolOfEnc(true, EncFileAttr(attr) + rest);
      TakeFileAttrOfEnc(attr, rest);
  }

  lemma TakePostOpHandleOfEnc(h: Option<seq<byte>>, rest: seq<byte>)
    requires h.Some? ==> |h.value| <= FILEHANDLE_SIZE
    ensures TakePostOpHandle(EncPostOpHandle(h) + rest) == Got(h, rest)
  {
    match h
    case None =>
      TakeBoolOfEnc(false, rest);
    case Some(handle) =>
      assert EncPostOpHandle(h) + rest == EncBool(true) + (EncOpaque(handle) + rest);
      TakeBoolOfEnc(true, EncOpaque(handle) + rest);
      TakeOpaqueOfEnc(handle, FILEHANDLE_SIZE, rest);
  }

  lemma TakeEntryOfEnc(e: ReadDirPlusEntry, rest: seq<byte>)
    requires EntryFits(e)
    ensures TakeEntry(EncEntry(e) + rest) == Got(WireEntry(e), rest)
  {
    hide EncOpaque, EncPostOpAttr, EncPostOpHandle, Take64, TakeOpaque, TakePostOpAttr, TakePostOpHandle;
    var s4 := EncPostOpHandle(e.handle) + rest;
    var s3 := EncPostOpAttr(e.attributes) + s4;
    var s2 := Be(e.cookie, 8) + s3;
    var s1 := EncOpaque(e.name) + s2;
    assert EncEntry(e) + rest == Be(e.fileId, 8) + s1;
    Take64OfBe(e.fileId, s1);
    TakeOpaqueOfEnc(e.name, NO_LIMIT, s2);
    Take64OfBe(e.cookie, s3);
    TakePostOpAttrOfEnc(e.attributes, s4);
    TakePostOpHandleOfEnc(e.handle, rest);
  }

  lemma {:induction false} TakeEntriesOfEnc(es: seq<ReadDirPlusEntry>, rest: seq<byte>)
    requires EntriesFit(es)
    ensures TakeEntries(EncEntries(es) + rest) == Got(WireEntries(es), rest)
  {
    hide EncEntry, TakeEntry, TakeBool;
    if es == [] {
      TakeBoolOfEnc(false, rest);
    } else {
      var tail := EncEntries(es[1..]) + rest;
      assert EncEntries(es) + rest == EncBool(true) + (EncEntry(es[0]) + tail);
      TakeBoolOfEnc(true, EncEntry(es[0]) + tail);
      assert EntryFits(es[0]);
      TakeEntryOfEnc(es[0], tail);
      TakeEntriesOfEnc(es[1..], rest);
    }
  }

  lemma TakeResokOfEnc(r: ReadDirPlusResult, rest: seq<byte>)
    requires r.status == OK && |r.verifier| == VERIFIER_SIZE && EntriesFit(r.reply)
    ensures TakeResok(EncResok(r) + rest)
         == Got(r.(directoryAttributes := WireOption(r.directoryAttributes), reply := WireEntries(r.reply)), rest)
  {
    hide EncPostOpAttr, EncEntries, EncBool, TakePostOpAttr, TakeEntries, TakeBool;
    var s3 := EncBool(r.isFinished) + rest;
    var s2 := EncEntries(r.reply) + s3;
    var s1 := r.verifier + s2;
    assert EncResok(r) + rest == EncPostOpAttr(r.directoryAttributes) + s1;
    TakePostOpAttrOfEnc(r.directoryAttributes, s1);
    TakeBytesOf(r.verifier, s2);
    TakeEntriesOfEnc(r.reply, s3);
    TakeBoolOfEnc(r.isFinished, rest);
  }

  /** Decoding an OK reply consumes every byte and gives back all of it, seconds
      taken modulo 2^32. */
  lemma ReadDirPlusResultRoundTrip(r: ReadDirPlusResult)
    requires r.status == OK && |r.verifier| == VERIFIER_SIZE && EntriesFit(r.reply)
    ensures TakeReadDirPlusResult(EncReadDirPlusResult(r))
         == Got(r.(directoryAttributes := WireOption(r.directoryAttributes), reply := WireEntries(r.reply)), [])
  {
    hide EncResok, TakeResok;
    Take32OfBe(r.status, EncResok(r));
    TakeResokOfEnc(r, []);
    assert EncResok(r) + [] == EncResok(r);
  }

  /** An error reply carries the status and the directory's attributes only. */
  lemma ReadDirPlusErrorRoundTrip(r: ReadDirPlusResult)
    requires r.status != OK
    ensures TakeReadDirPlusResult(EncReadDirPlusResult(r))
         == Got(ReadDirPlusResult(r.status, WireOption(r.directoryAttributes), [], [], true), [])
  {
    hide EncPostOpAttr, TakePostOpAttr;
    Take32OfBe(r.status, EncPostOpAttr(r.directoryAttributes));
    TakePostOpAttrOfEnc(r.directoryAttributes, []);
    assert EncPostOpAttr(r.directoryAttributes) + [] == EncPostOpAttr(r.directoryAttributes);
  }

  /** The reply arrives unchanged exactly when no time lies beyond 32-bit seconds. */
  lemma WireAttrFaithful(a: FileAttr)
    ensures WireAttr(a) == a <==>
            a.atime.seconds < TWO_32 && a.mtime.seconds < TWO_32 && a.ctime.seconds < TWO_32
  {}

  // ----- the program's writers -----

  lemma Be32Truncates(v: nat)
    ensures Be(v, 4) == Be(v % TWO_32, 4)
  {
    PowValues();
    BeIgnoresHigh(v / TWO_32, v % TWO_32, 4);
  }

  lemma {:induction false} BeIgnoresHigh(high: nat, low: nat, n: nat)
    ensures high * Pow256(n) + low >= 0
    ensures Be(high * Pow256(n) + low, n) == Be(low, n)
  {
    if n == 0 {
    } else {
      var x := high * Pow256(n - 1);
      assert high * Pow256(n) == 256 * x;
      assert (256 * x + low) / 256 == x + low / 256 && (256 * x + low) % 256 == low % 256;
      BeIgnoresHigh(high, low / 256, n - 1);
    }
  }

  /** The first k fields of an attribute record. */
  function EncAttrPrefix(a: FileAttr, k: nat): seq<byte>
    requires k <= 17
  {
    EncFields(AttrFields(a)[..k])
  }

  lemma EncAttrPrefixEnds(a: FileAttr)
    ensures EncAttrPrefix(a, 0) == [] && EncAttrPrefix(a, 17) == EncFileAttr(a)
  {
    assert AttrFields(a)[..17] == AttrFields(a);
  }

  /** append32 or append64 of field k, behind the fields before it. */
  method AppendField(builder: Builder, value: u64, width: nat, ghost was: seq<byte>, ghost attr: FileAttr, ghost k: nat)
    requires builder.AtEnd()
    requires k < 17 && builder.binary == was + EncAttrPrefix(attr, k)
    requires width == 4 || width == 8
    requires AttrFields(attr)[k] == Field(if width == 4 then value % TWO_32 else value, width)
    modifies builder
    ensures builder.AtEnd()
    ensures builder.binary == was + EncAttrPrefix(attr, k + 1)
  {
    hide EncFields, Overlay, Be;
    EncFieldsSnoc(AttrFields(attr), k);
    if width == 4 {
      Be32Truncates(value);
      builder.Append32(value);
    } else {
      builder.Append64(value);
    }
  }

  /** The two words of a time. */
  method AppendTime(builder: Builder, t: UnixTime, ghost was: seq<byte>, ghost attr: FileAttr, ghost k: nat)
    requires builder.AtEnd()
    requires k < 16 && builder.binary == was + EncAttrPrefix(attr, k)
    requires AttrFields(attr)[k] == Field(t.seconds % TWO_32, 4) && AttrFields(attr)[k + 1] == Field(t.nanoseconds, 4)
    modifies builder
    ensures builder.AtEnd()
    ensures builder.binary == was + EncAttrPrefix(attr, k + 2)
  {
    hide EncAttrPrefix;
    AppendField(builder, t.seconds, 4, was, attr, k);
    AppendField(builder, t.nanoseconds, 4, was, attr, k + 1);
  }

  method WriteFileAttr(builder: Builder, attr: FileAttr)
    requires builder.AtEnd()
    modifies builder
    ensures builder.AtEnd()
    ensures builder.binary == old(builder.binary) + EncFileAttr(attr)
  {
    hide EncAttrPrefix, EncFileAttr;
    ghost var was := builder.binary;
    EncAttrPrefixEnds(attr);
    hide Overlay, Be;
    AppendField(builder, attr.fileType, 4, was, attr, 0);
    AppendField(builder, attr.mode, 4, was, attr, 1);
    AppendField(builder, attr.nlink, 4, was, attr, 2);
    AppendField(builder, attr.uid, 4, was, attr, 3);
    AppendField(builder, attr.gid, 4, was, attr, 4);
    AppendField(builder, attr.size, 8, was, attr, 5);
    AppendField(builder, attr.used, 8, was, attr, 6);
    AppendField(builder, attr.rdev1, 4, was, attr, 7);
    AppendField(builder, attr.rdev2, 4, was, attr, 8);
    AppendField(builder, attr.fsid, 8, was, attr, 9);
    AppendField(builder, attr.fileid, 8, was, attr, 10);
    AppendTime(builder, attr.atime, was, attr, 11);
    AppendTime(builder, attr.mtime, was, attr, 13);
    AppendTime(builder, attr.ctime, was, attr, 15);
  }

  method WritePostOpAttr(builder: Builder, attr: Option<FileAttr>)
    requires builder.AtEnd()
    modifies builder
    ensures builder.AtEnd()
    ensures builder.binary == old(builder.binary) + EncPostOpAttr(attr)
  {
    builder.Append32(if attr.Some? then 1 else 0);
    if attr.Some? {
      WriteFileAttr(builder, attr.value);
    }
  }

  method WritePostOpHandle(builder: Builder, handle: Option<seq<byte>>)
    requires builder.AtEnd()
    modifies builder
    ensures builder.AtEnd()
    ensures builder.binary == old(builder.binary) + EncPostOpHandle(handle)
  {
    builder.Append32(if handle.Some? then 1 else 0);
    if handle.Some? {
      var _ := WriteOpaqueBinary(builder, handle.value, FILEHANDLE_SIZE);
    }
  }

  method WriteEntry(builder: Builder, entry: ReadDirPlusEntry)
    requires builder.AtEnd()
    requires |entry.name| <= NO_LIMIT
    modifies builder
    ensures builder.AtEnd()
    ensures builder.binary == old(builder.binary) + EncEntry(entry)
  {
    hide EncOpaque, EncPostOpAttr, EncPostOpHandle;
    builder.Append64(entry.fileId);
    var _ := WriteOpaqueString(builder, entry.name, NO_LIMIT);
    builder.Append64(entry.cookie);
    WritePostOpAttr(builder, entry.attributes);
    WritePostOpHandle(builder, entry.handle);
    assert builder.binary == old(builder.binary) + EncEntry(entry);
  }

  /** The list without its terminator: the first k entries, each behind a marker. */
  function Body(es: seq<ReadDirPlusEntry>, k: nat): seq<byte>
    requires k <= |es|
  {
    if k == 0 then [] else Body(es, k - 1) + (Be(1, 4) + EncEntry(es[k - 1]))
  }

  lemma {:induction false} BodyIsPrefix(es: seq<ReadDirPlusEntry>, k: nat)
    requires k <= |es|
    ensures EncEntries(es[..k]) == Body(es, k) + Be(0, 4)
  {
    hide EncEntry, Be;
    if k == 0 {
      assert es[..0] == [];
    } else {
      BodyShift(es, k);
      BodyIsPrefix(es[1..], k - 1);
      assert es[..k][1..] == es[1..][..k - 1];
      var first, rest := Be(1, 4) + EncEntry(es[0]), Body(es[1..], k - 1);
      assert EncEntries(es[..k]) == first + EncEntries(es[1..][..k - 1]);
      Regroup(first, rest, Be(0, 4));
    }
  }

  lemma {:induction false} BodyShift(es: seq<ReadDirPlusEntry>, k: nat)
    requires 0 < k <= |es|
    ensures Body(es, k) == Be(1, 4) + EncEntry(es[0]) + Body(es[1..], k - 1)
  {
    hide EncEntry;
    if k == 1 {
    } else {
      BodyShift(es, k - 1);
    }
  }

  /** write_list over the entries: a marker before each, a zero word at the end. */
  method WriteEntries(builder: Builder, es: seq<ReadDirPlusEntry>)
    requires builder.AtEnd()
    requires forall i :: 0 <= i < |es| ==> |es[i].name| <= NO_LIMIT
    modifies builder
    ensures builder.AtEnd()
    ensures builder.binary == old(builder.binary) + EncEntries(es)
  {
    hide EncEntry;
    var i := 0;
    while i < |es|
      invariant 0 <= i <= |es|
      invariant builder.AtEnd()
      invariant builder.binary == old(builder.binary) + Body(es, i)
    {
      builder.Append32(1);
      WriteEntry(builder, es[i]);
      i := i + 1;
    }
    builder.Append32(0);
    BodyIsPrefix(es, i);
    assert es[..i] == es;
  }

  lemma Regroup5(a: seq<byte>, b: seq<byte>, c: seq<byte>, d: seq<byte>, e: seq<byte>)
    ensures [] + a + b + c + d + e == a + (b + (c + (d + e)))
  {}

  method WriteReadDirPlusResult(r: ReadDirPlusResult) returns (binary: seq<byte>)
    requires forall i :: 0 <= i < |r.reply| ==> |r.reply[i].name| <= NO_LIMIT
    ensures binary == EncReadDirPlusResult(r)
  {
    hide EncPostOpAttr, EncEntries;
    var builder := new Builder();
    builder.Append32(r.status);
    if r.status == OK {
      WritePostOpAttr(builder, r.directoryAttributes);
      builder.AppendBinary(r.verifier);
      WriteEntries(builder, r.reply);
      builder.Append32(if r.isFinished then 1 else 0);
      Regroup5(Be(r.status, 4), EncPostOpAttr(r.directoryAttributes), r.verifier, EncEntries(r.reply),
               EncBool(r.isFinished));
    } else {
      WritePostOpAttr(builder, r.directoryAttributes);
    }
    binary := builder.binary;
  }
}
