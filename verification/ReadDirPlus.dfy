/** READDIRPLUS: one page of a directory within two byte budgets, and the run of
    pages by which a client reads a whole directory (section 3.3.17 of RFC 1813). */
module ReadDirPlus {
  import opened Wrappers
  import opened Attributes
  import opened Bytes
  import opened Xdr
  import opened XdrDecoder
  import opened WinTime
  import opened FileHandle
  import opened Directory
  import opened Nfs3Results
  import opened Nfs3Args
  import opened Nfs3Status

  const SIZEOF_FILE_ATTR: nat := 112
  const SIZEOF_FILE_ID: nat := 16

  /** A directory record. Its name is given in the multibyte form it is sent in. */
  datatype DirEntry = DirEntry(
    id: FileId, name: OctetString,
    flags: Flags, size: u64, allocatedSize: u64, times: Times)

  datatype Budget = Budget(dircount: u32, maxcount: u32)

  // ----- one entry of the reply -----

  /** A listed entry has one link and its directory's volume as file system. */
  function EntryAttr(dir: MountFilehandle, e: DirEntry): FileAttr
  {
    AttrWith(e.flags, 1, e.size, e.allocatedSize, dir.id.volume, e.id, e.times)
  }

  /** The attributes in a listing are those that are reported for the same object by
      itself exactly when the volume's number is the fixed one and the object has a
      single link. */
  lemma ListedAttrAgreesIff(dir: MountFilehandle, e: DirEntry, links: u32)
    ensures EntryAttr(dir, e) == ObjectAttr(Info(e.flags, links, e.size, e.allocatedSize, e.times), e.id) <==>
            dir.id.volume == FSID && links == 1
  {
    hide FileType, Mode, ShortId, LargeIntegerToUnix;
  }

  /** An entry's handle: the directory's mount and volume with the entry's file id. */
  function EntryHandle(dir: MountFilehandle, e: DirEntry): seq<byte>
  {
    CreateInBinary(MountFilehandle(dir.mountId, VolumeFileId(dir.id.volume, e.id)))
  }

  function ReplyEntry(dir: MountFilehandle, e: DirEntry, cookie: u64): ReadDirPlusEntry
  {
    ReadDirPlusEntry(ShortId(e.id), e.name, cookie, Some(EntryAttr(dir, e)), Some(EntryHandle(dir, e)))
  }

  // ----- the enumeration callback -----

  datatype Captured = Captured(
    fileCookie: u64, dircount: nat, totalcount: nat, isFinished: bool, reply: seq<ReadDirPlusEntry>)

  /** The converted length of a name counts its terminator. */
  function MbsLen(e: DirEntry): nat
  {
    |e.name| + 1
  }

  function DirCharge(e: DirEntry): nat
  {
    8 + (4 + MbsLen(e)) + 8
  }

  function TotalCharge(e: DirEntry): nat
  {
    4 + 8 + (4 + MbsLen(e)) + 8 + (4 + SIZEOF_FILE_ATTR) + (4 + SIZEOF_FILE_ID)
  }

  const TOTAL_START: nat := 4 + VERIFIER_SIZE + 4 + 4

  function Visit(dir: MountFilehandle, cookie: u64, b: Budget, c: Captured, e: DirEntry): (Captured, bool)
  {
    var c1 := c.(fileCookie := (c.fileCookie + 1) % TWO_64);
    if c1.fileCookie <= cookie then (c1, true) else
    var c2 := c1.(dircount := c1.dircount + DirCharge(e));
    if c2.dircount > b.dircount then (c2.(isFinished := false), false) else
    var c3 := c2.(totalcount := c2.totalcount + TotalCharge(e));
    if c3.totalcount > b.maxcount then (c3.(isFinished := false), false) else
    (c3.(reply := c3.reply + [ReplyEntry(dir, e, c3.fileCookie)]), true)
  }

  const START: Captured := Captured(0, 0, TOTAL_START, true, [])

  function Callback(dir: MountFilehandle, cookie: u64, b: Budget): (Captured, DirEntry) -> (Captured, bool)
  {
    (c: Captured, e: DirEntry) => Visit(dir, cookie, b, c, e)
  }

  // ----- what a page is -----

  datatype Page = Page(reply: seq<ReadDirPlusEntry>, finished: bool)

  function SumDir(es: seq<DirEntry>): nat
  {
    if es == [] then 0 else DirCharge(es[0]) + SumDir(es[1..])
  }

  function SumTotal(es: seq<DirEntry>): nat
  {
    if es == [] then 0 else TotalCharge(es[0]) + SumTotal(es[1..])
  }

  /** How many entries fit when `d` and `t` bytes are spent already. */
  function PageLength(es: seq<DirEntry>, d: nat, t: nat, b: Budget): (k: nat)
    ensures k <= |es|
  {
    if es == [] || d + DirCharge(es[0]) > b.dircount || t + TotalCharge(es[0]) > b.maxcount then 0
    else 1 + PageLength(es[1..], d + DirCharge(es[0]), t + TotalCharge(es[0]), b)
  }

  /** The reply entries for `es`, numbered from `first` on. */
  function Replies(dir: MountFilehandle, es: seq<DirEntry>, first: nat): (r: seq<ReadDirPlusEntry>)
    requires first + |es| <= TWO_64
    ensures |r| == |es|
  {
    if es == [] then [] else [ReplyEntry(dir, es[0], first)] + Replies(dir, es[1..], first + 1)
  }

  /** The reply entries for listing[from..to], numbered by their place. */
  function Section(dir: MountFilehandle, listing: seq<DirEntry>, from: nat, to: nat): (r: seq<ReadDirPlusEntry>)
    requires from <= to <= |listing| < TWO_64
    ensures |r| == to - from
  {
    Replies(dir, listing[from..to], from + 1)
  }

  lemma {:induction false} RepliesAt(dir: MountFilehandle, es: seq<DirEntry>, first: nat, i: nat)
    requires first + |es| <= TWO_64 && i < |es|
    ensures Replies(dir, es, first)[i] == ReplyEntry(dir, es[i], first + i)
  {
    hide ReplyEntry;
    if i == 0 {
    } else {
      RepliesAt(dir, es[1..], first + 1, i - 1);
    }
  }

  /** An entry of a reply, field by field: the listed name, its place as cookie, a
      handle on the listed object, the number in the first eight bytes of its id, and
      its type, permissions, sizes and times. */
  ghost predicate Reports(r: ReadDirPlusEntry, dir: MountFilehandle, e: DirEntry, place: nat)
  {
    && r.name == e.name && r.cookie == place
    && Le(r.fileId, 8) == e.id[..8]
    && r.handle.Some? && |r.handle.value| == SIZE
    && ViewBinary(r.handle.value) == MountFilehandle(dir.mountId, VolumeFileId(dir.id.volume, e.id))
    && r.attributes.Some?
    && var a := r.attributes.value;
       && TypeAndModeOf(a, e.flags) && TimesOf(a, e.times)
       && a.nlink == 1 && a.uid == 0 && a.gid == 0 && a.size == e.size && a.used == e.allocatedSize
       && a.fsid == dir.id.volume && a.fileid == r.fileId
  }

  lemma EntryReports(dir: MountFilehandle, e: DirEntry, place: u64)
    ensures Reports(ReplyEntry(dir, e, place), dir, e, place)
  {
    ViewOfCreate(MountFilehandle(dir.mountId, VolumeFileId(dir.id.volume, e.id)));
    LeOfLeNum(e.id[..8]);
    AttrFieldByField(e.flags, 1, e.size, e.allocatedSize, dir.id.volume, e.id, e.times);
    hide ViewBinary, CreateInBinary, Le, AttrWith, TypeAndModeOf, TimesOf;
    assert EntryAttr(dir, e).fileid == ShortId(e.id) by { EntryFileId(dir, e); }
  }

  lemma EntryFileId(dir: MountFilehandle, e: DirEntry)
    ensures EntryAttr(dir, e).fileid == ShortId(e.id)
  {}

  function PageOf(dir: MountFilehandle, listing: seq<DirEntry>, cookie: u64, b: Budget): (p: Page)
    requires |listing| < TWO_64
    ensures cookie <= |listing| ==> |p.reply| <= |listing| - cookie
  {
    if cookie > |listing| then Page([], true)
    else
      var k := PageLength(listing[cookie..], 0, TOTAL_START, b);
      Page(Section(dir, listing, cookie, cookie + k), cookie + k == |listing|)
  }

  /** A page is the longest run of entries within both budgets. */
  lemma {:induction false} PageIsGreedy(es: seq<DirEntry>, d: nat, t: nat, b: Budget)
    ensures var k := PageLength(es, d, t, b);
            && (k > 0 ==> d + SumDir(es[..k]) <= b.dircount && t + SumTotal(es[..k]) <= b.maxcount)
            && (k < |es| ==> d + SumDir(es[..k + 1]) > b.dircount || t + SumTotal(es[..k + 1]) > b.maxcount)
  {
    var k := PageLength(es, d, t, b);
    if es == [] {
    } else if k > 0 {
      PageIsGreedy(es[1..], d + DirCharge(es[0]), t + TotalCharge(es[0]), b);
      assert es[..k][1..] == es[1..][..k - 1];
      if k < |es| {
        assert es[..k + 1][1..] == es[1..][..k];
      }
    } else {
      assert es[..1][1..] == [];
      assert SumDir(es[..1]) == DirCharge(es[0]) && SumTotal(es[..1]) == TotalCharge(es[0]);
    }
  }

  // ----- the callback computes the page -----

  lemma {:induction false} WalkSkips(dir: MountFilehandle, cookie: u64, b: Budget, c: Captured, es: seq<DirEntry>)
    requires c.fileCookie + |es| <= cookie
    ensures Walk(Callback(dir, cookie, b), c, es) == (c.(fileCookie := c.fileCookie + |es|), true)
    decreases es
  {
    if es == [] {
    } else {
      WalkSkips(dir, cookie, b, c.(fileCookie := c.fileCookie + 1), es[1..]);
    }
  }

  predicate Fits(c: Captured, e: DirEntry, b: Budget)
  {
    c.dircount + DirCharge(e) <= b.dircount && c.totalcount + TotalCharge(e) <= b.maxcount
  }

  lemma VisitBehindCookie(dir: MountFilehandle, cookie: u64, b: Budget, c: Captured, e: DirEntry)
    requires cookie <= c.fileCookie < TWO_64 - 1 && c.isFinished
    ensures var (next, more) := Callback(dir, cookie, b)(c, e);
            && more == Fits(c, e, b)
            && (more ==> next == Captured(c.fileCookie + 1, c.dircount + DirCharge(e), c.totalcount + TotalCharge(e),
                                          true, c.reply + [ReplyEntry(dir, e, c.fileCookie + 1)]))
            && (!more ==> next.reply == c.reply && !next.isFinished)
  {}

  lemma {:induction false} WalkFills(dir: MountFilehandle, cookie: u64, b: Budget, c: Captured, es: seq<DirEntry>)
    requires cookie <= c.fileCookie && c.fileCookie + |es| < TWO_64 && c.isFinished
    ensures var k := PageLength(es, c.dircount, c.totalcount, b);
            var end := Walk(Callback(dir, cookie, b), c, es).0;
            && end.reply == c.reply + Replies(dir, es[..k], c.fileCookie + 1)
            && (end.isFinished <==> k == |es|)
    decreases es
  {
    hide Callback, ReplyEntry, DirCharge, TotalCharge;
    if es == [] {
    } else {
      VisitBehindCookie(dir, cookie, b, c, es[0]);
      var (next, more) := Callback(dir, cookie, b)(c, es[0]);
      var k := PageLength(es, c.dircount, c.totalcount, b);
      if more {
        assert k == 1 + PageLength(es[1..], next.dircount, next.totalcount, b);
        WalkFills(dir, cookie, b, next, es[1..]);
        assert es[..k][1..] == es[1..][..k - 1];
        assert Replies(dir, es[..k], c.fileCookie + 1)
            == [ReplyEntry(dir, es[0], c.fileCookie + 1)] + Replies(dir, es[1..][..k - 1], next.fileCookie + 1);
      } else {
        assert k == 0;
      }
    }
  }

  lemma WalkFromCookie(dir: MountFilehandle, listing: seq<DirEntry>, cookie: u64, b: Budget)
    requires cookie <= |listing| < TWO_64
    ensures var end := Walk(Callback(dir, cookie, b), START.(fileCookie := cookie), listing[cookie..]).0;
            Page(end.reply, end.isFinished) == PageOf(dir, listing, cookie, b)
  {
    var back := listing[cookie..];
    var k := PageLength(back, 0, TOTAL_START, b);
    hide Callback, PageLength, Replies, Walk;
    WalkFills(dir, cookie, b, START.(fileCookie := cookie), back);
    assert back[..k] == listing[cookie..cookie + k];
    var r := Replies(dir, back[..k], cookie + 1);
    assert [] + r == r;
  }

  lemma WalkPastEnd(dir: MountFilehandle, listing: seq<DirEntry>, cookie: u64, b: Budget)
    requires |listing| < cookie
    ensures var end := Walk(Callback(dir, cookie, b), START, listing).0;
            Page(end.reply, end.isFinished) == Page([], true)
  {
    WalkSkips(dir, cookie, b, START, listing);
  }

  lemma WalkToCookie(dir: MountFilehandle, listing: seq<DirEntry>, cookie: u64, b: Budget)
    requires cookie <= |listing|
    ensures var step := Callback(dir, cookie, b);
            Walk(step, START, listing) == Walk(step, START.(fileCookie := cookie), listing[cookie..])
  {
    hide Callback, Walk;
    var front, back := listing[..cookie], listing[cookie..];
    assert listing == front + back;
    WalkSkips(dir, cookie, b, START, front);
    WalkConcat(Callback(dir, cookie, b), START, front, back);
  }

  /** The callback, walked over the whole listing, leaves exactly the page. */
  lemma WalkIsPage(dir: MountFilehandle, listing: seq<DirEntry>, cookie: u64, b: Budget)
    requires |listing| < TWO_64
    ensures var end := Walk(Callback(dir, cookie, b), START, listing).0;
            Page(end.reply, end.isFinished) == PageOf(dir, listing, cookie, b)
  {
    if cookie > |listing| {
      WalkPastEnd(dir, listing, cookie, b);
    } else {
      WalkToCookie(dir, listing, cookie, b);
      WalkFromCookie(dir, listing, cookie, b);
      hide *;
    }
  }

  predicate VerifierAccepted(verifier: seq<byte>, lastWriteTime: LargeInteger)
  {
    LeNum(verifier) == 0 || LeNum(verifier) == lastWriteTime % TWO_64
  }

  /** A verifier is accepted exactly when it is all zeros or the present one. */
  lemma VerifierAcceptedIff(verifier: seq<byte>, now: LargeInteger)
    requires |verifier| == VERIFIER_SIZE
    ensures VerifierAccepted(verifier, now) <==> verifier == Zeros(8) || verifier == Le(now % TWO_64, 8)
  {
    PowValues();
    LeOfLeNum(verifier);
    LeNumOfLe(now % TWO_64, 8);
    LeNumOfLe(0, 8);
    LeOfZero(8);
    hide Le, LeNum, Pow256;
  }

  lemma {:induction false} LeOfZero(n: nat)
    ensures Le(0, n) == Zeros(n)
  {
    if n == 0 {
    } else {
      LeOfZero(n - 1);
    }
  }

  lemma WrapsApart(a: LargeInteger, b: LargeInteger)
    ensures a % TWO_64 == b % TWO_64 <==> a == b
  {}

  /** The verifier a page was sent with is accepted exactly as long as the
      directory's write time stays; but the one of write time 0 stands for no
      verifier, and is accepted whatever has changed since. */
  lemma VerifierTracksWriteTime(before: LargeInteger, now: LargeInteger)
    ensures VerifierAccepted(Le(before % TWO_64, 8), now) <==> before == 0 || before == now
  {
    PowValues();
    LeNumOfLe(before % TWO_64, 8);
    hide Le, LeNum, Pow256;
    WrapsApart(before, now);
    WrapsApart(before, 0);
  }

  /** The procedure from the verifier check on; `buffers` is what the opened
      directory hands out and `lastWriteTime` its last write time. */
  method ReadDirPlus(args: ReadDirPlusArgs, dir: MountFilehandle, lastWriteTime: LargeInteger,
                     buffers: seq<Buffer<DirEntry>>, ghost lists: seq<seq<DirEntry>>)
    returns (r: ReadDirPlusResult)
    requires |args.verifier| == VERIFIER_SIZE
    requires |buffers| == |lists|
    requires forall i :: 0 <= i < |buffers| ==> Chain(buffers[i], 0, lists[i])
    requires |Flatten(lists)| < TWO_64
    ensures !VerifierAccepted(args.verifier, lastWriteTime) ==> r.status == ERR_BAD_COOKIE && r.reply == []
    ensures VerifierAccepted(args.verifier, lastWriteTime) && buffers == [] ==> r.status == ERR_IO && r.reply == []
    ensures VerifierAccepted(args.verifier, lastWriteTime) && buffers != [] ==>
              var page := PageOf(dir, Flatten(lists), args.cookie, Budget(args.dircount, args.maxcount));
              r == ReadDirPlusResult(OK, None, Le(lastWriteTime % TWO_64, 8), page.reply, page.finished)
  {
    if LeNum(args.verifier) != 0 && LeNum(args.verifier) != lastWriteTime % TWO_64 {
      return ReadDirPlusResult(ERR_BAD_COOKIE, None, [], [], true);
    }
    var verifier := Le(lastWriteTime % TWO_64, 8);
    var b := Budget(args.dircount, args.maxcount);
    var success, c := Enumerate(buffers, lists, Callback(dir, args.cookie, b), START);
    if !success {
      assert lists == [];
      return ReadDirPlusResult(ERR_IO, None, verifier, c.reply, c.isFinished);
    }
    WalkIsPage(dir, Flatten(lists), args.cookie, b);
    return ReadDirPlusResult(OK, None, verifier, c.reply, c.isFinished);
  }

  // ----- the byte budget -----

  /** The sum of the first n widths. */
  function Total(widths: seq<nat>, n: nat): nat
    requires n <= |widths|
  {
    if n == 0 then 0 else Total(widths, n - 1) + widths[n - 1]
  }

  lemma {:induction false} FieldsLength(fields: seq<Field>, n: nat)
    requires n <= |fields|
    ensures |EncFields(fields[..n])| == Total(Widths(fields), n)
  {
    if n == 0 {
    } else {
      EncFieldsSnoc(fields, n - 1);
      FieldsLength(fields, n - 1);
    }
  }

  lemma AttrWidthsTotal()
    ensures Total(ATTR_WIDTHS, 17) == 84
  {
    var w := ATTR_WIDTHS;
    assert Total(w, 4) == 16;
    assert Total(w, 8) == 40;
    assert Total(w, 12) == 64;
  }

  /** An attribute record is 84 bytes on the wire; the loop charges its 112 in memory. */
  lemma FileAttrLength(a: FileAttr)
    ensures |EncFileAttr(a)| == 84
  {
    var fields := AttrFields(a);
    FieldsLength(fields, 17);
    AttrFieldsShape(a);
    AttrWidthsTotal();
    assert fields[..17] == fields;
    hide EncFields;
  }

  /** What an entry costs on the wire, marker included, is below its charge. */
  lemma EntryBelowCharge(dir: MountFilehandle, e: DirEntry, cookie: u64)
    ensures 4 + |EncEntry(ReplyEntry(dir, e, cookie))| == 152 + |e.name| + PadSize(|e.name|)
    ensures 4 + |EncEntry(ReplyEntry(dir, e, cookie))| < TotalCharge(e)
  {
    FileAttrLength(EntryAttr(dir, e));
  }

  lemma {:induction false} EntriesBelowCharge(dir: MountFilehandle, es: seq<DirEntry>, first: nat)
    requires first + |es| <= TWO_64
    ensures |EncEntries(Replies(dir, es, first))| <= 4 + SumTotal(es)
  {
    hide EncEntry, ReplyEntry, TotalCharge;
    if es == [] {
    } else {
      EntryBelowCharge(dir, es[0], first);
      EntriesBelowCharge(dir, es[1..], first + 1);
      assert Replies(dir, es, first)[1..] == Replies(dir, es[1..], first + 1);
    }
  }

  /** The READDIRPLUS3resok of a page. */
  function Resok(dir: MountFilehandle, listing: seq<DirEntry>, cookie: u64, b: Budget, verifier: seq<byte>): seq<byte>
    requires |listing| < TWO_64
  {
    var page := PageOf(dir, listing, cookie, b);
    EncResok(ReadDirPlusResult(OK, None, verifier, page.reply, page.finished))
  }

  /** The fixed parts of a reply take 20 bytes, and a reply without entries no more. */
  lemma ResokLength(page: Page, verifier: seq<byte>)
    requires |verifier| == VERIFIER_SIZE
    ensures |EncResok(ReadDirPlusResult(OK, None, verifier, page.reply, page.finished))|
         == TOTAL_START - 4 + |EncEntries(page.reply)|
    ensures |EncEntries([])| == 4
  {
    hide EncEntry;
  }

  /** The reply of any page is within maxcount exactly when maxcount has room for the
      fixed parts, whatever the listing, the cookie and the names: the loop counts
      them, but compares only when it charges an entry. */
  lemma {:induction false} ByteBudget(
    dir: MountFilehandle, listing: seq<DirEntry>, cookie: u64, b: Budget, verifier: seq<byte>)
    requires |listing| < TWO_64 && |verifier| == VERIFIER_SIZE
    ensures |Resok(dir, listing, cookie, b, verifier)| <= b.maxcount <==> TOTAL_START <= b.maxcount
  {
    hide EncEntries, EncResok, PageOf;
    var page := PageOf(dir, listing, cookie, b);
    ResokLength(page, verifier);
    if page.reply != [] {
      EntriesWithinBudget(dir, listing, cookie, b);
    }
  }

  lemma EntriesWithinBudget(dir: MountFilehandle, listing: seq<DirEntry>, cookie: u64, b: Budget)
    requires |listing| < TWO_64 && PageOf(dir, listing, cookie, b).reply != []
    ensures TOTAL_START - 4 + |EncEntries(PageOf(dir, listing, cookie, b).reply)| <= b.maxcount
    ensures TOTAL_START <= b.maxcount
  {
    hide EncEntries, TotalCharge, DirCharge;
    var k := PageLength(listing[cookie..], 0, TOTAL_START, b);
    PageIsGreedy(listing[cookie..], 0, TOTAL_START, b);
    assert listing[cookie..][..k] == listing[cookie..cookie + k];
    EntriesBelowCharge(dir, listing[cookie..cookie + k], cookie + 1);
    hide PageLength, Replies, SumTotal, SumDir;
  }

  /** An empty directory with 10 bytes of maxcount: the reply takes 20. */
  lemma EmptyReplyExceeds(dir: MountFilehandle, dircount: u32, verifier: seq<byte>)
    requires |verifier| == VERIFIER_SIZE
    ensures PageOf(dir, [], 0, Budget(dircount, 10)) == Page([], true)
    ensures |Resok(dir, [], 0, Budget(dircount, 10), verifier)| == 20
  {
    assert Replies(dir, [], 1) == [];
    ResokLength(Page([], true), verifier);
    hide EncResok, EncEntries;
  }

  /** What section 3.3.17 of RFC 1813 counts into dircount: file id, name and cookie. */
  function DirWire(e: DirEntry): nat
  {
    8 + |EncOpaque(e.name)| + 8
  }

  function SumDirWire(es: seq<DirEntry>): nat
  {
    if es == [] then 0 else DirWire(es[0]) + SumDirWire(es[1..])
  }

  /** The charge for a name has one byte for its terminator, but none for its
      padding: it covers the wire exactly when the padding is at most one byte, and
      falls short by two at most. */
  lemma DirChargeCoversIff(e: DirEntry)
    ensures DirWire(e) <= DirCharge(e) <==> |e.name| % 4 == 0 || |e.name| % 4 == 3
    ensures DirWire(e) <= DirCharge(e) + 2
  {}

  /** So a page exceeds dircount on the wire by at most two bytes for each entry,
      and not at all where every name's padding is covered. */
  lemma {:induction false} DirBudget(es: seq<DirEntry>)
    ensures SumDirWire(es) <= SumDir(es) + 2 * |es|
    ensures (forall i :: 0 <= i < |es| ==> |es[i].name| % 4 == 0 || |es[i].name| % 4 == 3) ==>
              SumDirWire(es) <= SumDir(es)
    decreases es
  {
    hide DirWire, DirCharge;
    if es == [] {
    } else {
      DirChargeCoversIff(es[0]);
      assert forall i :: 0 <= i < |es| - 1 ==> es[1..][i] == es[i + 1];
      DirBudget(es[1..]);
    }
  }

  lemma PageDirBudget(dir: MountFilehandle, listing: seq<DirEntry>, cookie: u64, b: Budget)
    requires cookie <= |listing| < TWO_64
    ensures var n := |PageOf(dir, listing, cookie, b).reply|;
            n > 0 ==> SumDirWire(listing[cookie..cookie + n]) <= b.dircount + 2 * n
  {
    var k := PageLength(listing[cookie..], 0, TOTAL_START, b);
    PageIsGreedy(listing[cookie..], 0, TOTAL_START, b);
    assert listing[cookie..][..k] == listing[cookie..cookie + k];
    DirBudget(listing[cookie..cookie + k]);
  }

  /** The page stays within dircount as the standard counts it. */
  ghost predicate WithinDircount(listing: seq<DirEntry>, cookie: nat, b: Budget)
    requires cookie <= |listing|
  {
    SumDirWire(listing[cookie..][..PageLength(listing[cookie..], 0, TOTAL_START, b)]) <= b.dircount
  }

  /** A budget can be spent on these n entries, and their charges cover their padding. */
  ghost predicate RunCovered(es: seq<DirEntry>, n: nat)
    requires n <= |es|
  {
    TOTAL_START + SumTotal(es[..n]) < TWO_32 ==> SumDirWire(es[..n]) <= SumDir(es[..n])
  }

  lemma {:induction false} ExactBudget(es: seq<DirEntry>, n: nat, d: nat, t: nat, b: Budget)
    requires n <= |es|
    requires b.dircount == d + SumDir(es[..n]) && b.maxcount == t + SumTotal(es[..n])
    ensures PageLength(es, d, t, b) == n
    decreases n
  {
    if n == 0 {
    } else {
      assert es[..n][1..] == es[1..][..n - 1];
      ExactBudget(es[1..], n - 1, d + DirCharge(es[0]), t + TotalCharge(es[0]), b);
    }
  }

  lemma {:induction false} DirBelowTotal(es: seq<DirEntry>)
    ensures SumDir(es) <= SumTotal(es)
  {
    if es == [] {
    } else {
      DirBelowTotal(es[1..]);
    }
  }

  /** Every budget gives a page within dircount exactly when the charges cover the
      padding of every run of entries behind the cookie that a budget can admit. */
  lemma DirBudgetIff(listing: seq<DirEntry>, cookie: nat)
    requires cookie <= |listing|
    ensures (forall b :: WithinDircount(listing, cookie, b)) <==>
            (forall n :: 0 <= n <= |listing| - cookie ==> RunCovered(listing[cookie..], n))
  {
    var es := listing[cookie..];
    if forall b :: WithinDircount(listing, cookie, b) {
      forall n | 0 <= n <= |es| ensures RunCovered(es, n) {
        if TOTAL_START + SumTotal(es[..n]) < TWO_32 {
          DirBelowTotal(es[..n]);
          var b := Budget(SumDir(es[..n]), TOTAL_START + SumTotal(es[..n]));
          ExactBudget(es, n, 0, TOTAL_START, b);
          assert WithinDircount(listing, cookie, b);
        }
      }
    }
    if forall n :: 0 <= n <= |es| ==> RunCovered(es, n) {
      forall b ensures WithinDircount(listing, cookie, b) {
        PageIsGreedy(es, 0, TOTAL_START, b);
        assert RunCovered(es, PageLength(es, 0, TOTAL_START, b));
      }
    }
  }

  /** A name of one byte with 22 bytes of dircount: the entry is sent, and takes 24. */
  lemma DirBudgetExceeded(dir: MountFilehandle, e: DirEntry)
    requires |e.name| == 1
    ensures PageOf(dir, [e], 0, Budget(22, 1000)).reply == [ReplyEntry(dir, e, 1)]
    ensures SumDirWire([e]) == 24
  {
    assert [e][0..] == [e] && [e][0..1] == [e] && [e][1..] == [];
    assert PageLength([e], 0, TOTAL_START, Budget(22, 1000)) == 1;
    assert Replies(dir, [e], 1) == [ReplyEntry(dir, e, 1)] + Replies(dir, [], 2);
  }

  // ----- a page as the client decodes it -----

  lemma {:induction false} PageNamesFit(es: seq<DirEntry>, d: nat, t: nat, b: Budget, i: nat)
    requires i < PageLength(es, d, t, b)
    ensures t + TotalCharge(es[i]) <= b.maxcount && d + DirCharge(es[i]) <= b.dircount
    decreases es
  {
    hide TotalCharge, DirCharge;
    if i == 0 {
    } else {
      PageNamesFit(es[1..], d + DirCharge(es[0]), t + TotalCharge(es[0]), b, i - 1);
    }
  }

  /** The reply written for any page, decoded as the standard says, gives back the
      page: its entries with their names, cookies, handles and attributes (seconds
      modulo 2^32), the verifier and the end-of-file flag. */
  lemma PageDecodes(dir: MountFilehandle, listing: seq<DirEntry>, cookie: u64, b: Budget, verifier: seq<byte>)
    requires |listing| < TWO_64 && |verifier| == VERIFIER_SIZE
    ensures var page := PageOf(dir, listing, cookie, b);
            var sent := ReadDirPlusResult(OK, None, verifier, page.reply, page.finished);
            TakeReadDirPlusResult(EncReadDirPlusResult(sent))
            == Got(ReadDirPlusResult(OK, None, verifier, WireEntries(page.reply), page.finished), [])
  {
    var page := PageOf(dir, listing, cookie, b);
    forall i | 0 <= i < |page.reply| ensures EntryFits(page.reply[i]) {
      PageEntryFits(dir, listing, cookie, b, i);
    }
    hide EncReadDirPlusResult, TakeReadDirPlusResult, PageOf;
    ReadDirPlusResultRoundTrip(ReadDirPlusResult(OK, None, verifier, page.reply, page.finished));
  }

  lemma PageEntryFits(dir: MountFilehandle, listing: seq<DirEntry>, cookie: u64, b: Budget, i: nat)
    requires |listing| < TWO_64 && i < |PageOf(dir, listing, cookie, b).reply|
    ensures EntryFits(PageOf(dir, listing, cookie, b).reply[i])
  {
    var k := PageLength(listing[cookie..], 0, TOTAL_START, b);
    PageNamesFit(listing[cookie..], 0, TOTAL_START, b, i);
    var es := listing[cookie..cookie + k];
    assert es[i] == listing[cookie..][i];
    hide PageLength, Replies;
    RepliesAt(dir, es, cookie + 1, i);
  }

  // ----- reading a whole directory -----

  /** The last cookie of a page counts the entries sent so far. */
  lemma NextCookie(dir: MountFilehandle, listing: seq<DirEntry>, cookie: u64, b: Budget)
    requires cookie <= |listing| < TWO_64
    ensures var p := PageOf(dir, listing, cookie, b);
            && cookie + |p.reply| <= |listing|
            && (p.reply != [] ==> p.reply[|p.reply| - 1].cookie == cookie + |p.reply|)
            && (p.finished <==> cookie + |p.reply| == |listing|)
            && p.reply == Section(dir, listing, cookie, cookie + |p.reply|)
  {
    var p := PageOf(dir, listing, cookie, b);
    var k := PageLength(listing[cookie..], 0, TOTAL_START, b);
    hide PageLength, Replies;
    if k > 0 {
      assert p.reply == Replies(dir, listing[cookie..cookie + k], cookie + 1);
      RepliesAt(dir, listing[cookie..cookie + k], cookie + 1, k - 1);
    }
  }

  /** Entry i of a page is the listing's entry that many places behind the cookie, and
      nothing but that. */
  lemma PageReports(dir: MountFilehandle, listing: seq<DirEntry>, cookie: u64, b: Budget, i: nat)
    requires |listing| < TWO_64 && i < |PageOf(dir, listing, cookie, b).reply|
    ensures cookie + i < |listing|
    ensures Reports(PageOf(dir, listing, cookie, b).reply[i], dir, listing[cookie + i], cookie + i + 1)
  {
    hide PageLength, Replies, Reports;
    var k := PageLength(listing[cookie..], 0, TOTAL_START, b);
    var es := listing[cookie..cookie + k];
    assert es[i] == listing[cookie + i];
    RepliesAt(dir, es, cookie + 1, i);
    EntryReports(dir, listing[cookie + i], cookie + i + 1);
  }

  /** The client's loop: ask again with the last cookie until a page is final. A
      client that is sent nothing new stops. */
  function Drain(dir: MountFilehandle, listing: seq<DirEntry>, cookie: u64, budgets: nat -> Budget, n: nat):
    (pages: seq<Page>)
    requires cookie <= |listing| < TWO_64
    ensures pages != []
    decreases |listing| - cookie
  {
    var p := PageOf(dir, listing, cookie, budgets(n));
    NextCookie(dir, listing, cookie, budgets(n));
    if p.finished || p.reply == [] then [p]
    else [p] + Drain(dir, listing, p.reply[|p.reply| - 1].cookie, budgets, n + 1)
  }

  function Entries(pages: seq<Page>): seq<ReadDirPlusEntry>
  {
    if pages == [] then [] else pages[0].reply + Entries(pages[1..])
  }

  /** The budget leaves room for the entry behind the cookie, if there is one. */
  predicate Admits(listing: seq<DirEntry>, cookie: nat, b: Budget)
  {
    cookie < |listing| ==>
      DirCharge(listing[cookie]) <= b.dircount && TOTAL_START + TotalCharge(listing[cookie]) <= b.maxcount
  }

  /** Every budget the client sends on its way admits the entry it is due. */
  predicate AdmitsOnTheWay(dir: MountFilehandle, listing: seq<DirEntry>, cookie: u64, budgets: nat -> Budget, n: nat)
    requires cookie <= |listing| < TWO_64
    decreases |listing| - cookie
  {
    && Admits(listing, cookie, budgets(n))
    && var p := PageOf(dir, listing, cookie, budgets(n));
       NextCookie(dir, listing, cookie, budgets(n));
       p.finished || (p.reply != [] && AdmitsOnTheWay(dir, listing, p.reply[|p.reply| - 1].cookie, budgets, n + 1))
  }

  /** A page is empty and unfinished exactly when the budget refuses the next entry. */
  lemma StuckIffRefused(dir: MountFilehandle, listing: seq<DirEntry>, cookie: u64, b: Budget)
    requires cookie <= |listing| < TWO_64
    ensures var p := PageOf(dir, listing, cookie, b);
            p.reply == [] && !p.finished <==> !Admits(listing, cookie, b)
  {}

  /** What an entry needs by itself: 21 bytes and its name of dircount, and 181 bytes
      and its name of maxcount. */
  lemma AdmitsIff(listing: seq<DirEntry>, cookie: nat, b: Budget)
    requires cookie < |listing|
    ensures var n := |listing[cookie].name|;
            Admits(listing, cookie, b) <==> n + 21 <= b.dircount && n + 181 <= b.maxcount
  {}

  /** Whatever a client reads page by page: entry i is the listing's. */
  lemma PagingReports(
    dir: MountFilehandle, listing: seq<DirEntry>, cookie: u64, budgets: nat -> Budget, n: nat, i: nat)
    requires cookie <= |listing| < TWO_64 && i < |Entries(Drain(dir, listing, cookie, budgets, n))|
    ensures cookie + i < |listing|
    ensures Reports(Entries(Drain(dir, listing, cookie, budgets, n))[i], dir, listing[cookie + i], cookie + i + 1)
  {
    PagingIsSection(dir, listing, cookie, budgets, n);
    var m := |Entries(Drain(dir, listing, cookie, budgets, n))|;
    hide Drain, Entries, Replies, Reports;
    var es := listing[cookie..cookie + m];
    assert es[i] == listing[cookie + i];
    RepliesAt(dir, es, cookie + 1, i);
    EntryReports(dir, listing[cookie + i], cookie + i + 1);
  }

  lemma {:induction false} SectionConcat(dir: MountFilehandle, listing: seq<DirEntry>, from: nat, mid: nat, to: nat)
    requires from <= mid <= to <= |listing| < TWO_64
    ensures Section(dir, listing, from, to) == Section(dir, listing, from, mid) + Section(dir, listing, mid, to)
    decreases mid - from
  {
    hide ReplyEntry;
    if from == mid {
    } else {
      SectionConcat(dir, listing, from + 1, mid, to);
      assert listing[from..to][1..] == listing[from + 1..to];
      assert listing[from..mid][1..] == listing[from + 1..mid];
    }
  }

  /** What is read is always a run of the listing, numbered by place. */
  lemma {:induction false} PagingIsSection(
    dir: MountFilehandle, listing: seq<DirEntry>, cookie: u64, budgets: nat -> Budget, n: nat)
    requires cookie <= |listing| < TWO_64
    ensures var e := Entries(Drain(dir, listing, cookie, budgets, n));
            && cookie + |e| <= |listing|
            && e == Section(dir, listing, cookie, cookie + |e|)
    decreases |listing| - cookie
  {
    hide Section, PageOf, Entries;
    var p := PageOf(dir, listing, cookie, budgets(n));
    NextCookie(dir, listing, cookie, budgets(n));
    if p.finished || p.reply == [] {
      EntriesOfOne(p);
    } else {
      var next := p.reply[|p.reply| - 1].cookie;
      PagingIsSection(dir, listing, next, budgets, n + 1);
      PageBeforeSection(dir, listing, cookie, next, p, Drain(dir, listing, next, budgets, n + 1));
    }
  }

  lemma PageBeforeSection(
    dir: MountFilehandle, listing: seq<DirEntry>, cookie: nat, next: nat, p: Page, rest: seq<Page>)
    requires cookie <= next && next + |Entries(rest)| <= |listing| < TWO_64
    requires p.reply == Section(dir, listing, cookie, next)
    requires Entries(rest) == Section(dir, listing, next, next + |Entries(rest)|)
    ensures var e := Entries([p] + rest);
            cookie + |e| == next + |Entries(rest)| && e == Section(dir, listing, cookie, cookie + |e|)
  {
    EntriesOfMore(p, rest);
    SectionConcat(dir, listing, cookie, next, next + |Entries(rest)|);
    hide Section, Entries;
  }

  lemma EntriesOfOne(p: Page)
    ensures Entries([p]) == p.reply
  {
    assert Entries([p]) == p.reply + Entries([]);
  }

  lemma EntriesOfMore(p: Page, rest: seq<Page>)
    ensures Entries([p] + rest) == p.reply + Entries(rest)
  {
    assert ([p] + rest)[1..] == rest;
  }

  /** Everything is read exactly when no page gets stuck. */
  lemma {:induction false} PagingReachesEnd(
    dir: MountFilehandle, listing: seq<DirEntry>, cookie: u64, budgets: nat -> Budget, n: nat)
    requires cookie <= |listing| < TWO_64
    ensures var pages := Drain(dir, listing, cookie, budgets, n);
            AdmitsOnTheWay(dir, listing, cookie, budgets, n) <==>
            cookie + |Entries(pages)| == |listing| && pages[|pages| - 1].finished
    decreases |listing| - cookie
  {
    var p := PageOf(dir, listing, cookie, budgets(n));
    NextCookie(dir, listing, cookie, budgets(n));
    StuckIffRefused(dir, listing, cookie, budgets(n));
    hide PageOf, Admits;
    if p.finished || p.reply == [] {
      EntriesOfOne(p);
    } else {
      var next := p.reply[|p.reply| - 1].cookie;
      EntriesOfMore(p, Drain(dir, listing, next, budgets, n + 1));
      PagingReachesEnd(dir, listing, next, budgets, n + 1);
    }
  }

  /** Following the last cookie gives exactly the rest of the listing, each entry
      once and numbered by its place, and stops on a page marked final — if and
      only if every budget on the way admits the entry it is due. */
  lemma {:induction false} PagingComplete(
    dir: MountFilehandle, listing: seq<DirEntry>, cookie: u64, budgets: nat -> Budget)
    requires cookie <= |listing| < TWO_64
    ensures var pages := Drain(dir, listing, cookie, budgets, 0);
            AdmitsOnTheWay(dir, listing, cookie, budgets, 0) <==>
            Entries(pages) == Section(dir, listing, cookie, |listing|) && pages[|pages| - 1].finished
  {
    hide Drain, AdmitsOnTheWay, Section;
    PagingIsSection(dir, listing, cookie, budgets, 0);
    PagingReachesEnd(dir, listing, cookie, budgets, 0);
  }

  function Constant(b: Budget): nat -> Budget
  {
    (n: nat) => b
  }

  /** A client that sends the same budget throughout reads everything exactly when
      the budget admits every entry by itself. */
  lemma ConstantBudgetIff(dir: MountFilehandle, listing: seq<DirEntry>, cookie: u64, b: Budget)
    requires cookie <= |listing| < TWO_64
    ensures AdmitsOnTheWay(dir, listing, cookie, Constant(b), 0) <==>
            forall k :: cookie <= k < |listing| ==> Admits(listing, k, b)
  {
    hide AdmitsOnTheWay, Admits;
    if AdmitsOnTheWay(dir, listing, cookie, Constant(b), 0) {
      forall k | cookie <= k < |listing| ensures Admits(listing, k, b) {
        AdmittedOnTheWay(dir, listing, cookie, Constant(b), 0, b, k);
      }
    }
    if forall k :: cookie <= k < |listing| ==> Admits(listing, k, b) {
      AdmittingBudgets(dir, listing, cookie, Constant(b), 0);
    }
  }

  /** Budgets that admit every entry lead to the end, however they vary. */
  lemma {:induction false} AdmittingBudgets(
    dir: MountFilehandle, listing: seq<DirEntry>, cookie: u64, budgets: nat -> Budget, n: nat)
    requires cookie <= |listing| < TWO_64
    requires forall k, i :: cookie <= k < |listing| && n <= i ==> Admits(listing, k, budgets(i))
    ensures AdmitsOnTheWay(dir, listing, cookie, budgets, n)
    decreases |listing| - cookie
  {
    var p := PageOf(dir, listing, cookie, budgets(n));
    NextCookie(dir, listing, cookie, budgets(n));
    StuckIffRefused(dir, listing, cookie, budgets(n));
    assert cookie < |listing| ==> Admits(listing, cookie, budgets(n));
    hide PageOf;
    if p.finished {
      assert Admits(listing, cookie, budgets(n));
    } else {
      AdmittingBudgets(dir, listing, p.reply[|p.reply| - 1].cookie, budgets, n + 1);
    }
  }

  lemma {:induction false} AdmittedOnTheWay(
    dir: MountFilehandle, listing: seq<DirEntry>, cookie: u64, budgets: nat -> Budget, n: nat, b: Budget, k: nat)
    requires cookie <= k < |listing| < TWO_64
    requires forall i :: budgets(i) == b
    requires AdmitsOnTheWay(dir, listing, cookie, budgets, n)
    ensures Admits(listing, k, b)
    decreases |listing| - cookie
  {
    var p := PageOf(dir, listing, cookie, budgets(n));
    NextCookie(dir, listing, cookie, budgets(n));
    if k < cookie + |p.reply| {
      OnPageAdmitted(dir, listing, cookie, b, k);
    } else {
      hide PageOf, Admits;
      AdmittedOnTheWay(dir, listing, p.reply[|p.reply| - 1].cookie, budgets, n + 1, b, k);
    }
  }

  lemma OnPageAdmitted(dir: MountFilehandle, listing: seq<DirEntry>, cookie: u64, b: Budget, k: nat)
    requires cookie <= k < |listing| < TWO_64 && k < cookie + |PageOf(dir, listing, cookie, b).reply|
    ensures Admits(listing, k, b)
  {
    PageNamesFit(listing[cookie..], 0, TOTAL_START, b, k - cookie);
    assert listing[cookie..][k - cookie] == listing[k];
  }

  /** A client that knows the longest name can tell beforehand: with budgets that
      have room for it, always, it reads the whole directory. */
  lemma LongestNameSuffices(
    dir: MountFilehandle, listing: seq<DirEntry>, cookie: u64, budgets: nat -> Budget, longest: nat)
    requires cookie <= |listing| < TWO_64
    requires forall k :: 0 <= k < |listing| ==> |listing[k].name| <= longest
    requires forall i :: longest + 21 <= budgets(i).dircount && longest + 181 <= budgets(i).maxcount
    ensures var pages := Drain(dir, listing, cookie, budgets, 0);
            Entries(pages) == Section(dir, listing, cookie, |listing|) && pages[|pages| - 1].finished
  {
    forall k, i | cookie <= k < |listing| && 0 <= i ensures Admits(listing, k, budgets(i)) {
      assert |listing[k].name| <= longest;
    }
    hide Admits, AdmitsOnTheWay, Drain, Section;
    AdmittingBudgets(dir, listing, cookie, budgets, 0);
    PagingComplete(dir, listing, cookie, budgets);
  }

  /** The run ends after at most as many pages as entries are left (one if none
      is), and only its last page is final or empty. */
  lemma {:induction false} PagingEnds(
    dir: MountFilehandle, listing: seq<DirEntry>, cookie: u64, budgets: nat -> Budget, n: nat)
    requires cookie <= |listing| < TWO_64
    ensures var pages := Drain(dir, listing, cookie, budgets, n);
            && |pages| <= 1 + (|listing| - cookie)
            && (pages[|pages| - 1].reply != [] ==> |pages| <= |listing| - cookie)
            && forall i :: 0 <= i < |pages| - 1 ==> !pages[i].finished && pages[i].reply != []
    decreases |listing| - cookie
  {
    var p := PageOf(dir, listing, cookie, budgets(n));
    NextCookie(dir, listing, cookie, budgets(n));
    hide PageOf;
    if p.finished || p.reply == [] {
    } else {
      var next := p.reply[|p.reply| - 1].cookie;
      PagingEnds(dir, listing, next, budgets, n + 1);
      var rest := Drain(dir, listing, next, budgets, n + 1);
      assert Drain(dir, listing, cookie, budgets, n) == [p] + rest;
      hide Drain;
    }
  }
}
